/**
 * Data (soupmigration/base.py): loading the tables of the legacy database
 * into `data` (renaming columns as `mapping` says and dropping the rows
 * `data_filter` matches), cleaning every value, and merging the tables into
 * `merged_data`. The database is given as the rows its queries return.
 */
module Loading {
  import opened Wrappers
  import opened Values
  import opened Tables
  import opened Merging
  import opened Logs

  // ----- The legacy database -----

  /** One table as the cursor returns it: DESCRIBE gives the columns, SELECT * the rows. */
  datatype SourceTable = SourceTable(name: string, columns: seq<string>, rows: seq<seq<Cell>>)

  /** The tables in the order SHOW TABLES lists them. */
  type Database = seq<SourceTable>

  function ShowTables(db: Database): (names: seq<string>)
    ensures |names| == |db| && forall i :: 0 <= i < |db| ==> names[i] == db[i].name
  {
    seq(|db|, i requires 0 <= i < |db| => db[i].name)
  }

  /** The table a query on `name` reads; a name the database does not have makes the query fail. */
  function Describe(db: Database, name: string): (r: Option<SourceTable>)
    ensures r.Some? ==> r.value in db && r.value.name == name
    ensures r.None? ==> forall i :: 0 <= i < |db| ==> db[i].name != name
  {
    if db == [] then None
    else if db[0].name == name then Some(db[0])
    else
      assert forall i :: 1 <= i < |db| ==> db[1..][i - 1] == db[i];
      Describe(db[1..], name)
  }

  /** `[t for t in tables if t in mapping]` */
  function InMapping(names: seq<string>, m: Mapping): (r: seq<string>)
    ensures forall t :: t in r <==> t in names && t in m
  {
    if names == [] then []
    else (if names[0] in m then [names[0]] else []) + InMapping(names[1..], m)
  }

  /** load_table_names, run by load_data when no tables are set: every table, or those the mapping names. */
  function TableNames(db: Database, mapping: Option<Mapping>): seq<string>
  {
    if mapping.None? then ShowTables(db) else InMapping(ShowTables(db), mapping.value)
  }

  // ----- Configuration -----

  /**
   * The attributes a Data subclass sets: `mapping` (absent as None),
   * `unique_field` as (old name, new name), `data_filter` as its items in
   * iteration order, `table_order`, and the class list `empty_values`.
   */
  datatype Config = Config(
    mapping: Option<Mapping>,
    uniqueField: (string, string),
    dataFilter: Option<seq<(string, Cell)>>,
    tableOrder: Option<seq<string>>,
    emptyValues: set<string>)

  // ----- load_data as a specification -----

  /** What load_data changes: `data`, `mapping` (its 'all' entry folded in) and the log. */
  datatype LoadState = LoadState(data: LoadedData, mapping: Option<Mapping>, messages: seq<LogItem>)

  /** `self.data[table].append(dic)` */
  function Append(data: LoadedData, table: string, row: Row): LoadedData
  {
    data[table := (if table in data then data[table] else []) + [row]]
  }

  /**
   * One fetched row of `table`: the arity assertion, the row dict, and when
   * a mapping is set the 'all' fold, the renaming, and data_filter, which
   * logs and drops a matching row.
   */
  function LoadRow(st: LoadState, table: string, columns: seq<string>, cells: seq<Cell>, cfg: Config): Result<LoadState, Error>
  {
    if !Arity(|columns|, |cells|) then Failure(AssertionError(""))
    else
      var dic := Zip(columns, cells);
      if st.mapping.None? then Success(st.(data := Append(st.data, table, dic)))
      else
        var m := FoldAll(st.mapping.value);
        var (oldUnique, newUnique) := cfg.uniqueField;
        var row :- RemapRow(columns, dic, if table in m then Some(m[table]) else None, table, oldUnique, newUnique);
        var matched := if cfg.dataFilter.Some? then FilterMatches(cfg.dataFilter.value, row) else [];
        if matched == [] then Success(LoadState(Append(st.data, table, row), Some(m), st.messages))
        else if newUnique !in row then Failure(KeyError(newUnique))
        else Success(LoadState(st.data, Some(m), AddEntry(st.messages, FilterMessage(matched), Scalar(row[newUnique]), None)))
  }

  /** The rows of a table loaded one after the other; the first error stops the load. */
  function LoadRows(st: LoadState, table: string, columns: seq<string>, rows: seq<seq<Cell>>, cfg: Config): Result<LoadState, Error>
  {
    if rows == [] then Success(st)
    else
      var prev :- LoadRows(st, table, columns, rows[..|rows| - 1], cfg);
      LoadRow(prev, table, columns, rows[|rows| - 1], cfg)
  }

  /** One table: its list of rows reset, its columns and rows fetched and loaded. */
  function LoadTable(st: LoadState, table: string, db: Database, cfg: Config): Result<LoadState, Error>
  {
    var reset := st.(data := st.data[table := []]);
    match Describe(db, table)
    case None => Failure(DatabaseError(table))
    case Some(src) => LoadRows(reset, table, src.columns, src.rows, cfg)
  }

  /** The tables loaded one after the other. */
  function LoadTables(st: LoadState, tables: seq<string>, db: Database, cfg: Config): Result<LoadState, Error>
  {
    if tables == [] then Success(st)
    else
      var prev :- LoadTables(st, tables[..|tables| - 1], db, cfg);
      LoadTable(prev, tables[|tables| - 1], db, cfg)
  }

  /** One more row: LoadRows loads it into the state so far. */
  lemma LoadRowsStep(st: LoadState, table: string, columns: seq<string>, rows: seq<seq<Cell>>, i: nat, cfg: Config)
    requires i < |rows| && LoadRows(st, table, columns, rows[..i], cfg).Success?
    ensures LoadRows(st, table, columns, rows[..i + 1], cfg) ==
            LoadRow(LoadRows(st, table, columns, rows[..i], cfg).value, table, columns, rows[i], cfg)
  {
    assert rows[..i + 1][..i] == rows[..i];
  }

  /** One more table: LoadTables loads it into the state so far. */
  lemma LoadTablesStep(st: LoadState, tables: seq<string>, i: nat, db: Database, cfg: Config)
    requires i < |tables| && LoadTables(st, tables[..i], db, cfg).Success?
    ensures LoadTables(st, tables[..i + 1], db, cfg) == LoadTable(LoadTables(st, tables[..i], db, cfg).value, tables[i], db, cfg)
  {
    assert tables[..i + 1][..i] == tables[..i];
  }

  lemma {:induction false} LoadRowsStops(st: LoadState, table: string, columns: seq<string>, rows: seq<seq<Cell>>, cfg: Config, n: nat)
    requires n <= |rows| && LoadRows(st, table, columns, rows[..n], cfg).Failure?
    ensures LoadRows(st, table, columns, rows, cfg) == LoadRows(st, table, columns, rows[..n], cfg)
    decreases |rows|
  {
    if n < |rows| {
      var init := rows[..|rows| - 1];
      assert init[..n] == rows[..n];
      LoadRowsStops(st, table, columns, init, cfg, n);
    } else {
      assert rows[..n] == rows;
    }
  }

  lemma {:induction false} LoadTablesStops(st: LoadState, tables: seq<string>, db: Database, cfg: Config, n: nat)
    requires n <= |tables| && LoadTables(st, tables[..n], db, cfg).Failure?
    ensures LoadTables(st, tables, db, cfg) == LoadTables(st, tables[..n], db, cfg)
    decreases |tables|
  {
    if n < |tables| {
      var init := tables[..|tables| - 1];
      assert init[..n] == tables[..n];
      LoadTablesStops(st, init, db, cfg, n);
    } else {
      assert tables[..n] == tables;
    }
  }

  // ----- Properties of loading -----

  /** The row dicts of the fetched rows, in order. */
  function ZipRows(columns: seq<string>, rows: seq<seq<Cell>>): (r: seq<Row>)
    ensures |r| == |rows|
  {
    if rows == [] then [] else ZipRows(columns, rows[..|rows| - 1]) + [Zip(columns, rows[|rows| - 1])]
  }

  /** Without a mapping every row is loaded as fetched: the dict of its columns and cells. */
  lemma {:induction false} LoadWithoutMapping(st: LoadState, table: string, columns: seq<string>, rows: seq<seq<Cell>>, cfg: Config)
    requires st.mapping.None? && table in st.data
    requires forall i :: 0 <= i < |rows| ==> |rows[i]| == |columns|
    ensures LoadRows(st, table, columns, rows, cfg) == Success(st.(data := st.data[table := st.data[table] + ZipRows(columns, rows)]))
    decreases |rows|
  {
    if rows == [] {
      assert st.data[table] + [] == st.data[table];
      assert st.data[table := st.data[table]] == st.data;
    } else {
      var init := rows[..|rows| - 1];
      LoadWithoutMapping(st, table, columns, init, cfg);
      var before := st.data[table] + ZipRows(columns, init);
      assert st.data[table := before][table := before + [Zip(columns, rows[|rows| - 1])]]
          == st.data[table := before + [Zip(columns, rows[|rows| - 1])]];
      assert st.data[table] + ZipRows(columns, init) + [Zip(columns, rows[|rows| - 1])] == st.data[table] + ZipRows(columns, rows);
    }
  }

  /**
   * With a mapping and a data_filter, no loaded row matches the filter: a
   * row that does is dropped, and its message is in the log.
   */
  lemma {:induction false} LoadedRowsPassFilter(st: LoadState, table: string, columns: seq<string>, rows: seq<seq<Cell>>, cfg: Config)
    requires st.mapping.Some? && cfg.dataFilter.Some? && table in st.data
    requires LoadRows(st, table, columns, rows, cfg).Success?
    ensures var r := LoadRows(st, table, columns, rows, cfg).value;
            && r.mapping.Some? && table in r.data && |st.data[table]| <= |r.data[table]|
            && r.data[table][..|st.data[table]|] == st.data[table]
            && forall i :: |st.data[table]| <= i < |r.data[table]| ==> FilterMatches(cfg.dataFilter.value, r.data[table][i]) == []
    ensures Msgs(st.messages) <= Msgs(LoadRows(st, table, columns, rows, cfg).value.messages)
    decreases |rows|
  {
    if rows != [] {
      var init := rows[..|rows| - 1];
      var prev := LoadRows(st, table, columns, init, cfg);
      assert prev.Success?;
      LoadedRowsPassFilter(st, table, columns, init, cfg);
      var p := prev.value;
      var r := LoadRow(p, table, columns, rows[|rows| - 1], cfg);
      assert p.mapping.Some?;
      var m := FoldAll(p.mapping.value);
      var dic := Zip(columns, rows[|rows| - 1]);
      var (oldUnique, newUnique) := cfg.uniqueField;
      var row := RemapRow(columns, dic, if table in m then Some(m[table]) else None, table, oldUnique, newUnique).value;
      var matched := FilterMatches(cfg.dataFilter.value, row);
      if matched != [] {
        AddMessages(p.messages, FilterMessage(matched), Scalar(row[newUnique]), None);
      }
    }
  }

  /** A row dropped by data_filter leaves its message, naming the matched keys, in the log. */
  lemma FilteredRowLogged(st: LoadState, table: string, columns: seq<string>, cells: seq<Cell>, cfg: Config)
    requires st.mapping.Some? && cfg.dataFilter.Some? && Arity(|columns|, |cells|)
    requires var m := FoldAll(st.mapping.value);
             var r := RemapRow(columns, Zip(columns, cells), if table in m then Some(m[table]) else None, table, cfg.uniqueField.0, cfg.uniqueField.1);
             r.Success? && FilterMatches(cfg.dataFilter.value, r.value) != [] && cfg.uniqueField.1 in r.value
    ensures LoadRow(st, table, columns, cells, cfg).Success?
    ensures var m := FoldAll(st.mapping.value);
            var row := RemapRow(columns, Zip(columns, cells), if table in m then Some(m[table]) else None, table, cfg.uniqueField.0, cfg.uniqueField.1).value;
            var r := LoadRow(st, table, columns, cells, cfg).value;
            && r.data == st.data
            && FilterMessage(FilterMatches(cfg.dataFilter.value, row)) in Msgs(r.messages)
  {
    var m := FoldAll(st.mapping.value);
    var row := RemapRow(columns, Zip(columns, cells), if table in m then Some(m[table]) else None, table, cfg.uniqueField.0, cfg.uniqueField.1).value;
    AddMessages(st.messages, FilterMessage(FilterMatches(cfg.dataFilter.value, row)), Scalar(row[cfg.uniqueField.1]), None);
  }

  /** With a mapping, only tables the mapping names are loaded. */
  lemma MappedTablesOnly(db: Database, m: Mapping)
    ensures forall t :: t in TableNames(db, Some(m)) ==> t in m && exists i :: 0 <= i < |db| && db[i].name == t
  {
    forall t | t in TableNames(db, Some(m)) ensures t in m && exists i :: 0 <= i < |db| && db[i].name == t {
      var names := ShowTables(db);
      assert t in names;
      var i :| 0 <= i < |names| && names[i] == t;
      assert db[i].name == t;
    }
  }

  // ----- merge as a specification -----

  /** The message of the assertion merge makes about `mapping`. */
  const MAPPING_REQUIRED: string := "You need to supply `mapping` for this function."

  /** The loaded tables with every value as unicode() renders it: the text clean() leaves. */
  function Texts(data: LoadedData): TextTables
  {
    map t | t in data :: seq(|data[t]|, i requires 0 <= i < |data[t]| => map k | k in data[t][i] :: Render(data[t][i][k]))
  }

  /** The unique values of all rows, or KeyError for the first row without the unique field. */
  function AllUniqueValues(text: TextTables, unique: string): Result<set<string>, Error>
  {
    if SomeRowLacks(text, unique) then Failure(KeyError(unique))
    else Success(set t, i | t in text && 0 <= i < |text[t]| && unique in text[t][i] :: text[t][i][unique])
  }

  /**
   * The outcome of merge: the exception it raises, or `merged_data` after a
   * successful merge (when it fails on a row without the unique field,
   * merged_data has just been emptied).
   */
  ghost predicate MergeOutcome(err: Option<Error>, merged: seq<Record>, oldMerged: seq<Record>,
                               text: TextTables, mapping: Option<Mapping>, unique: string, order: seq<string>)
  {
    if mapping.None? then err == Some(AttributeError("mapping")) && merged == oldMerged
    else if mapping.value == map[] then err == Some(AssertionError(MAPPING_REQUIRED)) && merged == oldMerged
    else if SomeRowLacks(text, unique) then err == Some(KeyError(unique)) && merged == []
    else if LastMissing(order, text).Some? then err == Some(KeyError(LastMissing(order, text).value))
    else err.None? && IsMergeResult(merged, text, MappingKeys(mapping.value).value, unique, order)
  }

  /** `table_order`, or else some enumeration of the mapping's tables. */
  ghost predicate IsTableOrder(order: seq<string>, tableOrder: Option<seq<string>>, mapping: Mapping)
  {
    if tableOrder.Some? then order == tableOrder.value
    else (forall t :: t in order <==> t in mapping) && forall i, j :: 0 <= i < j < |order| ==> order[i] != order[j]
  }

  // ----- The steps of merge -----

  /** The loop collecting `unique_items` over every row of every table. */
  method CollectUnique(text: TextTables, unique: string) returns (r: Result<set<string>, Error>)
    ensures r == AllUniqueValues(text, unique)
  {
    var items: set<string> := {};
    var todo := text.Keys;
    while todo != {}
      invariant todo <= text.Keys
      invariant forall t, i :: t in text && t !in todo && 0 <= i < |text[t]| ==> unique in text[t][i]
      invariant items == set t, i | t in text && t !in todo && 0 <= i < |text[t]| && unique in text[t][i] :: text[t][i][unique]
      decreases todo
    {
      var t :| t in todo;
      var rows := text[t];
      var k := 0;
      var found: set<string> := {};
      while k < |rows|
        invariant 0 <= k <= |rows|
        invariant forall i :: 0 <= i < k ==> unique in rows[i]
        invariant found == set i | 0 <= i < k && unique in rows[i] :: rows[i][unique]
      {
        if unique !in rows[k] {
          assert t in text && unique !in text[t][k];
          assert SomeRowLacks(text, unique);
          return Failure(KeyError(unique));
        }
        found := found + {rows[k][unique]};
        k := k + 1;
      }
      items := items + found;
      todo := todo - {t};
    }
    assert !SomeRowLacks(text, unique);
    assert items == set t, i | t in text && 0 <= i < |text[t]| && unique in text[t][i] :: text[t][i][unique] by {
      assert forall t :: t in text ==> t !in todo;
    }
    r := Success(items);
  }

  /** The default records, one per non-empty unique value, in the order the set yields them. */
  method SeedRecords(values: set<string>, keys: set<string>, unique: string) returns (merged: seq<Record>)
    ensures AllHave(merged, unique) && DistinctUnique(merged, unique)
    ensures forall x :: x in UniqueColumn(merged, unique) <==> x in values && x != ""
    ensures forall i :: 0 <= i < |merged| ==> merged[i] == Seed(keys, unique, merged[i][unique])
  {
    merged := [];
    var todo := values;
    while todo != {}
      invariant todo <= values
      invariant AllHave(merged, unique) && DistinctUnique(merged, unique)
      invariant forall x :: x in UniqueColumn(merged, unique) <==> x in values - todo && x != ""
      invariant forall i :: 0 <= i < |merged| ==> merged[i] == Seed(keys, unique, merged[i][unique])
      decreases todo
    {
      var u :| u in todo;
      if u != "" {
        var before := UniqueColumn(merged, unique);
        assert u !in before;
        merged := merged + [Seed(keys, unique, u)];
        assert UniqueColumn(merged, unique) == before + [u];
      }
      todo := todo - {u};
    }
  }

  /** Overlaying one more row: only the record of the row's unique value changes. */
  lemma OverlayStep(record: Record, rows: seq<Record>, row: Record, unique: string, u: string)
    ensures Overlay(record, rows + [row], unique, u) ==
            if Matches(row, unique, u) then Overlay(record, rows, unique, u) + NonEmpty(row) else Overlay(record, rows, unique, u)
  {
    assert (rows + [row])[..|rows|] == rows;
  }

  /** The missing table merge meets first is the last missing one of the order. */
  lemma {:induction false} LastMissingAt(order: seq<string>, text: TextTables, k: nat)
    requires k < |order| && order[k] !in text
    requires forall j :: k < j < |order| ==> order[j] in text
    ensures LastMissing(order, text) == Some(order[k])
    decreases |order|
  {
    if k < |order| - 1 {
      var init := order[..|order| - 1];
      LastMissingAt(init, text, k);
    }
  }

  /** `filter(None, unique_items)` is the set of non-empty unique values. */
  lemma UniqueValuesFromItems(text: TextTables, unique: string, items: set<string>)
    requires AllUniqueValues(text, unique) == Success(items)
    ensures forall x :: x in items && x != "" <==> x in UniqueValues(text, unique)
  {
  }

  /**
   * The seeded records, each overlaid with the rows of its unique value and
   * then sorted, are the merge result.
   */
  lemma SortedMergeResult(text: TextTables, keys: set<string>, unique: string, order: seq<string>, items: set<string>,
                          seeds: seq<Record>, merged: seq<Record>)
    requires AllUniqueValues(text, unique) == Success(items)
    requires AllHave(seeds, unique) && DistinctUnique(seeds, unique)
    requires forall x :: x in UniqueColumn(seeds, unique) <==> x in items && x != ""
    requires |merged| == |seeds| && AllHave(merged, unique)
    requires forall i :: 0 <= i < |seeds| ==>
      merged[i][unique] == seeds[i][unique] && merged[i] == MergedRecord(text, keys, unique, order, seeds[i][unique])
    ensures IsMergeResult(SortByUnique(merged, unique), text, keys, unique, order)
  {
    assert UniqueColumn(merged, unique) == UniqueColumn(seeds, unique);
    var sorted := SortByUnique(merged, unique);
    SortStrict(merged, unique);
    UniqueValuesFromItems(text, unique, items);
    forall i | 0 <= i < |sorted|
      ensures sorted[i] == MergedRecord(text, keys, unique, order, sorted[i][unique])
    {
      assert sorted[i] in multiset(merged);
      var j :| 0 <= j < |merged| && merged[j] == sorted[i];
    }
  }

  /**
   * With the arity test as intended, a row with one cell per column is
   * loaded whatever the number of columns (without a mapping, as its
   * zipped dict).
   */
  lemma FullRowLoads(st: LoadState, table: string, columns: seq<string>, cells: seq<Cell>, cfg: Config)
    requires |columns| == |cells| && st.mapping.None?
    ensures LoadRow(st, table, columns, cells, cfg) == Success(st.(data := Append(st.data, table, Zip(columns, cells))))
    ensures |columns| > 256 ==> !ArityAsWritten(|columns|, |cells|)
  {
  }

  /** Filtering one more table name. */
  lemma InMappingAppend(names: seq<string>, t: string, m: Mapping)
    ensures InMapping(names + [t], m) == InMapping(names, m) + if t in m then [t] else []
  {
    if names != [] {
      assert (names + [t])[1..] == names[1..] + [t];
    }
  }

  /**
   * The inner loop of merge for one row: the record with the row's unique
   * value, if any, is updated with the row's non-empty values; no other
   * record changes.
   */
  method UpdateMatching(merged: seq<Record>, row: Record, unique: string) returns (r: seq<Record>)
    requires AllHave(merged, unique) && DistinctUnique(merged, unique) && unique in row
    ensures |r| == |merged|
    ensures forall i :: 0 <= i < |merged| ==> unique in r[i] && r[i][unique] == merged[i][unique]
    ensures forall i :: 0 <= i < |merged| ==>
      r[i] == if Matches(row, unique, merged[i][unique]) then merged[i] + NonEmpty(row) else merged[i]
  {
    r := merged;
    var j := 0;
    while j < |r|
      invariant 0 <= j <= |r| && r == merged
      invariant forall i :: 0 <= i < j ==> !Matches(row, unique, merged[i][unique])
    {
      if r[j][unique] == row[unique] {
        r := r[j := r[j] + NonEmpty(row)];
        return;
      }
      j := j + 1;
    }
  }

  /**
   * The loop over the rows of one table in merge: each row updates the
   * record of its unique value with its non-empty values.
   */
  method OverlayRows(merged: seq<Record>, rows: seq<Record>, unique: string, ghost bases: seq<Record>, ghost done: seq<Record>)
    returns (r: seq<Record>)
    requires AllHave(merged, unique) && DistinctUnique(merged, unique) && |bases| == |merged|
    requires forall j :: 0 <= j < |rows| ==> unique in rows[j]
    requires forall i :: 0 <= i < |merged| ==> merged[i] == Overlay(bases[i], done, unique, merged[i][unique])
    ensures |r| == |merged| && AllHave(r, unique)
    ensures forall i :: 0 <= i < |merged| ==> r[i][unique] == merged[i][unique]
    ensures forall i :: 0 <= i < |merged| ==> r[i] == Overlay(bases[i], done + rows, unique, merged[i][unique])
  {
    r := merged;
    var ri := 0;
    assert done + rows[..0] == done;
    while ri < |rows|
      invariant 0 <= ri <= |rows|
      invariant |r| == |merged| && AllHave(r, unique)
      invariant forall i :: 0 <= i < |merged| ==> r[i][unique] == merged[i][unique]
      invariant forall i :: 0 <= i < |merged| ==> r[i] == Overlay(bases[i], done + rows[..ri], unique, merged[i][unique])
    {
      assert DistinctUnique(r, unique);
      var next := UpdateMatching(r, rows[ri], unique);
      forall i | 0 <= i < |merged|
        ensures next[i] == Overlay(bases[i], done + rows[..ri + 1], unique, merged[i][unique])
      {
        assert done + rows[..ri + 1] == (done + rows[..ri]) + [rows[ri]];
        OverlayStep(bases[i], done + rows[..ri], rows[ri], unique, merged[i][unique]);
      }
      r := next;
      ri := ri + 1;
    }
    assert rows[..ri] == rows;
  }

  /**
   * The overlay loop of merge: the tables in reverse order, each row
   * updating the record of its unique value. A table of the order that was
   * not loaded raises KeyError when it is reached.
   */
  method OverlayTables(seeds: seq<Record>, text: TextTables, order: seq<string>, keys: set<string>, unique: string)
    returns (r: Result<seq<Record>, Error>)
    requires AllHave(seeds, unique) && DistinctUnique(seeds, unique) && !SomeRowLacks(text, unique)
    requires forall i :: 0 <= i < |seeds| ==> seeds[i] == Seed(keys, unique, seeds[i][unique])
    ensures r.Failure? <==> LastMissing(order, text).Some?
    ensures r.Failure? ==> r.error == KeyError(LastMissing(order, text).value)
    ensures r.Success? ==> |r.value| == |seeds| && AllHave(r.value, unique)
    ensures r.Success? ==> forall i :: 0 <= i < |seeds| ==>
      r.value[i][unique] == seeds[i][unique] && r.value[i] == MergedRecord(text, keys, unique, order, seeds[i][unique])
  {
    var merged := seeds;
    var ti := |order|;
    assert order[|order|..] == [];
    while ti > 0
      invariant 0 <= ti <= |order|
      invariant forall j :: ti <= j < |order| ==> order[j] in text
      invariant |merged| == |seeds| && AllHave(merged, unique)
      invariant forall i :: 0 <= i < |merged| ==> merged[i][unique] == seeds[i][unique]
      invariant forall i :: 0 <= i < |merged| ==>
        merged[i] == Overlay(seeds[i], Pending(text, order[ti..]), unique, seeds[i][unique])
    {
      var t := order[ti - 1];
      if t !in text {
        LastMissingAt(order, text, ti - 1);
        return Failure(KeyError(t));
      }
      var rows := text[t];
      ghost var done := Pending(text, order[ti..]);
      assert order[ti - 1..][1..] == order[ti..];
      assert Pending(text, order[ti - 1..]) == done + rows;
      assert forall j :: 0 <= j < |rows| ==> unique in rows[j];
      assert DistinctUnique(merged, unique);
      merged := OverlayRows(merged, rows, unique, seeds, done);
      ti := ti - 1;
    }
    assert order[0..] == order;
    r := Success(merged);
  }

  /** clean() for one row: every value replaced by its cleaned text. */
  method CleanEach(row: Row, emptyValues: set<string>) returns (r: Row)
    ensures r == CleanRow(row, emptyValues)
  {
    r := row;
    var todo := row.Keys;
    while todo != {}
      invariant todo <= row.Keys && r.Keys == row.Keys
      invariant forall key :: key in row ==> r[key] == if key in todo then row[key] else CleanCell(row[key], emptyValues)
      decreases todo
    {
      var key :| key in todo;
      r := r[key := CleanCell(r[key], emptyValues)];
      todo := todo - {key};
    }
  }

  /** The loaded data of a Data instance and what is done to it. */
  class Data {
    /** The tables to load; load_data fills it when it is empty. */
    var tables: seq<string>
    /** The loaded rows of every table. */
    var data: LoadedData
    /** The merged records. */
    var mergedData: seq<Record>
    /** `mapping`, absent as None; load_data folds its 'all' entry in. */
    var mapping: Option<Mapping>
    const log: Log
    const config: Config
    /** `empty_values` with the values every instance adds. */
    const emptyValues: set<string>

    /** The state __init__ sets up before it loads anything. */
    constructor (config: Config)
      ensures tables == [] && data == map[] && mergedData == [] && mapping == config.mapping
      ensures this.config == config && emptyValues == config.emptyValues + DEFAULT_EMPTY_VALUES
      ensures fresh(log) && log.messages == []
    {
      tables := [];
      data := map[];
      mergedData := [];
      mapping := config.mapping;
      log := new Log();
      this.config := config;
      emptyValues := config.emptyValues + DEFAULT_EMPTY_VALUES;
    }

    /** load_table_names */
    method LoadTableNames(db: Database)
      modifies this`tables
      ensures tables == TableNames(db, mapping)
    {
      var names := ShowTables(db);
      if mapping.Some? {
        var kept: seq<string> := [];
        var i := 0;
        while i < |names|
          invariant 0 <= i <= |names|
          invariant kept == InMapping(names[..i], mapping.value)
        {
          InMappingAppend(names[..i], names[i], mapping.value);
          assert names[..i + 1] == names[..i] + [names[i]];
          if names[i] in mapping.value {
            kept := kept + [names[i]];
          }
          i := i + 1;
        }
        assert names[..i] == names;
        names := kept;
      }
      tables := names;
    }

    /** load_data: every table of `tables` (all tables, or the mapped ones, when it is empty) loaded in turn. */
    method LoadData(db: Database) returns (err: Option<Error>)
      modifies this`tables, this`data, this`mapping, log
      ensures tables == if old(tables) == [] then TableNames(db, old(mapping)) else old(tables)
      ensures var spec := LoadTables(LoadState(old(data), old(mapping), old(log.messages)), tables, db, config);
              && (err.None? <==> spec.Success?)
              && (err.Some? ==> spec.error == err.value)
              && (err.None? ==> data == spec.value.data && mapping == spec.value.mapping && log.messages == spec.value.messages)
    {
      if tables == [] {
        LoadTableNames(db);
      }
      var st0 := LoadState(data, mapping, log.messages);
      var names := tables;
      var ti := 0;
      while ti < |names|
        invariant 0 <= ti <= |names| && tables == names
        invariant LoadTables(st0, names[..ti], db, config) == Success(LoadState(data, mapping, log.messages))
      {
        LoadTablesStep(st0, names, ti, db, config);
        var e := LoadOneTable(names[ti], db);
        if e.Some? {
          LoadTablesStops(st0, names, db, config, ti + 1);
          return e;
        }
        ti := ti + 1;
      }
      assert names[..ti] == tables;
      err := None;
    }

    /** The body of load_data's loop over the tables, for one table. */
    method LoadOneTable(table: string, db: Database) returns (err: Option<Error>)
      modifies this`data, this`mapping, log
      ensures var spec := LoadTable(LoadState(old(data), old(mapping), old(log.messages)), table, db, config);
              && (err.None? <==> spec.Success?)
              && (err.Some? ==> spec.error == err.value)
              && (err.None? ==> data == spec.value.data && mapping == spec.value.mapping && log.messages == spec.value.messages)
    {
      data := data[table := []];
      var src := Describe(db, table);
      if src.None? {
        return Some(DatabaseError(table));
      }
      err := LoadFetchedRows(table, src.value.columns, src.value.rows);
    }

    /** load_data's loop over the fetched rows of one table. */
    method LoadFetchedRows(table: string, columns: seq<string>, rows: seq<seq<Cell>>) returns (err: Option<Error>)
      modifies this`data, this`mapping, log
      ensures var spec := LoadRows(LoadState(old(data), old(mapping), old(log.messages)), table, columns, rows, config);
              && (err.None? <==> spec.Success?)
              && (err.Some? ==> spec.error == err.value)
              && (err.None? ==> data == spec.value.data && mapping == spec.value.mapping && log.messages == spec.value.messages)
    {
      ghost var st := LoadState(data, mapping, log.messages);
      var ri := 0;
      while ri < |rows|
        invariant 0 <= ri <= |rows|
        invariant LoadRows(st, table, columns, rows[..ri], config) == Success(LoadState(data, mapping, log.messages))
      {
        LoadRowsStep(st, table, columns, rows, ri, config);
        var e := LoadOneRow(table, columns, rows[ri]);
        if e.Some? {
          LoadRowsStops(st, table, columns, rows, config, ri + 1);
          return e;
        }
        ri := ri + 1;
      }
      assert rows[..ri] == rows;
      err := None;
    }

    /** The body of load_data's loop over the fetched rows, for one row. */
    method LoadOneRow(table: string, columns: seq<string>, cells: seq<Cell>) returns (err: Option<Error>)
      modifies this`data, this`mapping, log
      ensures var spec := LoadRow(LoadState(old(data), old(mapping), old(log.messages)), table, columns, cells, config);
              && (err.None? <==> spec.Success?)
              && (err.Some? ==> spec.error == err.value)
              && (err.None? ==> data == spec.value.data && mapping == spec.value.mapping && log.messages == spec.value.messages)
    {
      if |columns| != |cells| {
        return Some(AssertionError(""));
      }
      var dic := Zip(columns, cells);
      if mapping.Some? {
        var m := FoldAll(mapping.value);
        mapping := Some(m);
        var (oldUnique, newUnique) := config.uniqueField;
        var remapped := RemapRow(columns, dic, if table in m then Some(m[table]) else None, table, oldUnique, newUnique);
        if remapped.Failure? {
          return Some(remapped.error);
        }
        dic := remapped.value;
        if config.dataFilter.Some? {
          var matched := FilterMatches(config.dataFilter.value, dic);
          if matched != [] {
            if newUnique !in dic {
              return Some(KeyError(newUnique));
            }
            log.Add(FilterMessage(matched), Scalar(dic[newUnique]), None);
            return None;
          }
        }
      }
      data := Append(data, table, dic);
      err := None;
    }

    /** clean(): every value of every loaded row cleaned. */
    method Clean()
      modifies this`data
      ensures data == CleanTables(old(data), emptyValues)
    {
      ghost var orig := data;
      var d := data;
      var todo := d.Keys;
      while todo != {}
        invariant todo <= orig.Keys && d.Keys == orig.Keys
        invariant forall t :: t in orig ==> d[t] == if t in todo then orig[t] else CleanRows(orig[t], emptyValues)
        decreases todo
      {
        var t :| t in todo;
        var rows := d[t];
        var i := 0;
        while i < |rows|
          invariant 0 <= i <= |rows| && |rows| == |orig[t]|
          invariant forall k :: 0 <= k < |rows| ==> rows[k] == if k < i then CleanRow(orig[t][k], emptyValues) else orig[t][k]
        {
          var row := CleanEach(rows[i], emptyValues);
          rows := rows[i := row];
          i := i + 1;
        }
        assert rows == CleanRows(orig[t], emptyValues);
        d := d[t := rows];
        todo := todo - {t};
      }
      data := d;
    }

    /** _get_mapping_keys() */
    method GetMappingKeys() returns (r: Result<set<string>, Error>)
      ensures r == if mapping.None? then Failure(AttributeError("mapping")) else MappingKeys(mapping.value)
    {
      if mapping.None? {
        return Failure(AttributeError("mapping"));
      }
      var m := mapping.value;
      if m == map[] {
        return Failure(AssertionError(""));
      }
      var keys: set<string> := {};
      var todo := m.Keys;
      while todo != {}
        invariant todo <= m.Keys
        invariant keys == set t, key | t in m && t !in todo && key in m[t] :: OutputName(m[t], key)
        decreases todo
      {
        var t :| t in todo;
        var entries := m[t].Keys;
        var found: set<string> := {};
        while entries != {}
          invariant entries <= m[t].Keys
          invariant found == set key | key in m[t] && key !in entries :: OutputName(m[t], key)
          decreases entries
        {
          var key :| key in entries;
          found := found + {OutputName(m[t], key)};
          entries := entries - {key};
        }
        keys := keys + found;
        todo := todo - {t};
      }
      assert keys == set t, key | t in m && key in m[t] :: OutputName(m[t], key) by {
        assert forall t :: t in m ==> t !in todo;
      }
      r := Success(keys);
    }

    /** _get_default_mapping(*args) */
    method GetDefaultMapping(args: seq<string>) returns (r: Result<Mapping, Error>)
      ensures r == DefaultMapping(data, args)
    {
      var d := data;
      if d == map[] {
        return Failure(AssertionError(""));
      }
      var m: Mapping := map[];
      var todo := d.Keys;
      while todo != {}
        invariant todo <= d.Keys
        invariant m == map t | t in d && t !in todo && (args == [] || t in args) && d[t] != [] :: map key | key in d[t][0] :: None
        decreases todo
      {
        var t :| t in todo;
        if (args == [] || t in args) && d[t] != [] {
          m := m[t := map key | key in d[t][0] :: None];
        }
        todo := todo - {t};
      }
      assert m == map t | t in d && (args == [] || t in args) && d[t] != [] :: map key | key in d[t][0] :: None;
      r := Success(m);
    }

    /** `getattr(self, 'table_order', self.mapping.keys())` */
    method TableOrder() returns (order: seq<string>)
      requires mapping.Some?
      ensures IsTableOrder(order, config.tableOrder, mapping.value)
    {
      if config.tableOrder.Some? {
        return config.tableOrder.value;
      }
      order := [];
      var todo := mapping.value.Keys;
      while todo != {}
        invariant todo <= mapping.value.Keys
        invariant forall t :: t in order <==> t in mapping.value && t !in todo
        invariant forall i, j :: 0 <= i < j < |order| ==> order[i] != order[j]
        decreases todo
      {
        var t :| t in todo;
        order := order + [t];
        todo := todo - {t};
      }
    }

    /**
     * merge(): the records of every non-empty unique value, built from the
     * cleaned tables in reverse table order and sorted by unique value.
     */
    method Merge() returns (err: Option<Error>)
      requires Cleaned(data)
      modifies this`mergedData
      ensures exists order :: (mapping.Some? ==> IsTableOrder(order, config.tableOrder, mapping.value)) &&
                              MergeOutcome(err, mergedData, old(mergedData), Texts(data), mapping, config.uniqueField.1, order)
    {
      var unique := config.uniqueField.1;
      var text := Texts(data);
      if mapping.None? {
        err := Some(AttributeError("mapping"));
        assert MergeOutcome(err, mergedData, old(mergedData), text, mapping, unique, []);
        return;
      }
      if mapping.value == map[] {
        err := Some(AssertionError(MAPPING_REQUIRED));
        var order := TableOrder();
        assert MergeOutcome(err, mergedData, old(mergedData), text, mapping, unique, order);
        return;
      }
      mergedData := [];
      var keys := GetMappingKeys();
      var items := CollectUnique(text, unique);
      if items.Failure? {
        err := Some(items.error);
        var order := TableOrder();
        assert MergeOutcome(err, mergedData, old(mergedData), text, mapping, unique, order);
        return;
      }
      var seeds := SeedRecords(items.value, keys.value, unique);
      var order := TableOrder();
      var overlaid := OverlayTables(seeds, text, order, keys.value, unique);
      if overlaid.Failure? {
        err := Some(overlaid.error);
        assert MergeOutcome(err, mergedData, old(mergedData), text, mapping, unique, order);
        return;
      }
      SortedMergeResult(text, keys.value, unique, order, items.value, seeds, overlaid.value);
      mergedData := SortByUnique(overlaid.value, unique);
      err := None;
      assert MergeOutcome(err, mergedData, old(mergedData), text, mapping, unique, order);
    }

    /** __init__ after the connection is set up: load_data, clean, and merge when a mapping is set. */
    method Initialize(db: Database) returns (err: Option<Error>)
      modifies this`tables, this`data, this`mapping, this`mergedData, log
      ensures tables == if old(tables) == [] then TableNames(db, old(mapping)) else old(tables)
      ensures var spec := LoadTables(LoadState(old(data), old(mapping), old(log.messages)), tables, db, config);
              && (spec.Failure? ==> err == Some(spec.error))
              && (spec.Success? ==> data == CleanTables(spec.value.data, emptyValues) && Cleaned(data))
              && (spec.Success? ==> mapping == spec.value.mapping && log.messages == spec.value.messages)
              && (spec.Success? && mapping.None? ==> err.None? && mergedData == old(mergedData))
              && (spec.Success? && mapping.Some? ==>
                    exists order :: (IsTableOrder(order, config.tableOrder, mapping.value) &&
                                     MergeOutcome(err, mergedData, old(mergedData), Texts(data), mapping, config.uniqueField.1, order)))
    {
      err := LoadData(db);
      if err.Some? {
        return;
      }
      ghost var loaded := data;
      Clean();
      CleanTablesCleaned(loaded, emptyValues);
      if mapping.Some? {
        err := Merge();
      }
    }
  }
}
