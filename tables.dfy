/**
 * Rows of the legacy tables and what Data (soupmigration/base.py) does to
 * each of them: building the row dict from a fetched tuple, folding the
 * `'all'` entry of `mapping` into every table's entry, renaming and blanking
 * columns as the mapping says, matching rows against `data_filter`,
 * cleaning values, and the two mapping helpers `_get_mapping_keys` and
 * `_get_default_mapping`.
 */
module Tables {
  import opened Wrappers
  import opened Values
  import Lookups

  /** A loaded row: column name to cell. */
  type Row = map<string, Cell>

  /** One table's entry of `mapping`: column to new name (None stands for a None value). */
  type TableMapping = map<string, Option<string>>

  /** `mapping`: table name (or "all") to that table's entry. */
  type Mapping = map<string, TableMapping>

  /** The rows of every loaded table: `Data.data`. */
  type LoadedData = map<string, seq<Row>>

  /** The mapping entry whose renames apply to every table. */
  const ALL: string := "all"

  // ----- Building a row -----

  /**
   * `assert len(keys) is len(row)` as CPython evaluates it: `is` compares
   * object identity, and two equal ints are the same object only inside the
   * small-int cache (-5 to 256). A length is never negative.
   */
  predicate ArityAsWritten(columns: nat, cells: nat)
  {
    columns == cells && columns <= 256
  }

  /** What the assertion is meant to check: as many cells as columns. */
  predicate Arity(columns: nat, cells: nat)
  {
    columns == cells
  }

  /** A table of 257 or more columns fails the assertion on every row, though each row fits. */
  lemma WideRowRejected(columns: nat)
    requires columns > 256
    ensures Arity(columns, columns) && !ArityAsWritten(columns, columns)
  {
  }

  /** The two agree on every table of at most 256 columns. */
  lemma NarrowRowsAgree(columns: nat, cells: nat)
    requires columns <= 256
    ensures ArityAsWritten(columns, cells) <==> Arity(columns, cells)
  {
  }

  /** dict(zip(keys[..n], row[..n])): a later column of the same name wins. */
  function ZipPrefix(keys: seq<string>, cells: seq<Cell>, n: nat): (row: Row)
    requires n <= |keys| && n <= |cells|
    ensures row.Keys == set i | 0 <= i < n :: keys[i]
    ensures forall i :: 0 <= i < n && (forall j :: i < j < n ==> keys[j] != keys[i]) ==> row[keys[i]] == cells[i]
  {
    if n == 0 then map[]
    else
      var prev := ZipPrefix(keys, cells, n - 1);
      assert forall i :: 0 <= i < n - 1 && (forall j :: i < j < n ==> keys[j] != keys[i]) ==> prev[keys[i]] == cells[i];
      prev[keys[n - 1] := cells[n - 1]]
  }

  /** dict(zip(keys, row)): zip stops at the shorter of the two. */
  function Zip(keys: seq<string>, cells: seq<Cell>): Row
  {
    ZipPrefix(keys, cells, if |keys| <= |cells| then |keys| else |cells|)
  }

  /** A row with as many cells as there are distinct columns holds each cell under its column. */
  lemma ZipCells(keys: seq<string>, cells: seq<Cell>)
    requires |keys| == |cells|
    requires forall i, j :: 0 <= i < j < |keys| ==> keys[i] != keys[j]
    ensures Zip(keys, cells).Keys == set i | 0 <= i < |keys| :: keys[i]
    ensures forall i :: 0 <= i < |keys| ==> Zip(keys, cells)[keys[i]] == cells[i]
  {
  }

  // ----- The 'all' entry of mapping -----

  /**
   * `for_all = mapping.pop('all', {})` followed by updating every remaining
   * table entry with it: the "all" entry disappears and its renames override
   * each table's own.
   */
  function FoldAll(m: Mapping): (r: Mapping)
    ensures ALL !in r
    ensures r.Keys == m.Keys - {ALL}
    ensures ALL in m ==> forall t, k :: t in r && k in m[ALL] ==> k in r[t] && r[t][k] == m[ALL][k]
    ensures forall t, k :: t in r && k in m[t] && (ALL !in m || k !in m[ALL]) ==> k in r[t] && r[t][k] == m[t][k]
    ensures forall t, k :: t in r && k in r[t] ==> k in m[t] || (ALL in m && k in m[ALL])
  {
    if ALL in m then map t | t in m && t != ALL :: m[t] + m[ALL] else m
  }

  /**
   * Folding is done again for every loaded row; after the first time there
   * is no "all" entry left, so the mapping no longer changes.
   */
  lemma FoldAllIdempotent(m: Mapping)
    ensures FoldAll(FoldAll(m)) == FoldAll(m)
  {
  }

  // ----- Renaming the columns of a row -----

  /** `mapping[table].get(key)` when it is truthy: a non-empty new name. */
  function NewName(tm: TableMapping, key: string): Option<string>
  {
    if key in tm && tm[key].Some? && tm[key].value != "" then tm[key] else None
  }

  /** The loop visits `key` and moves its value to a new name. */
  predicate Moves(row: Row, tm: TableMapping, newUnique: string, key: string)
  {
    key in row && key != newUnique && NewName(tm, key).Some?
  }

  /**
   * Renaming the unique field when a new name is given: the value moves to
   * the new name; a row without the old name raises KeyError.
   */
  function RenameUnique(row: Row, oldUnique: string, newUnique: string): (r: Result<Row, Error>)
    ensures r.Failure? <==> newUnique != "" && oldUnique != newUnique && oldUnique !in row
    ensures r.Success? && newUnique != "" && oldUnique != newUnique ==>
      && r.value.Keys == row.Keys - {oldUnique} + {newUnique}
      && r.value[newUnique] == row[oldUnique]
      && forall k :: k in row && k != oldUnique && k != newUnique ==> r.value[k] == row[k]
    ensures r.Success? && (newUnique == "" || oldUnique == newUnique) ==> r.value == row
  {
    if newUnique != "" && oldUnique != newUnique then
      if oldUnique !in row then Failure(KeyError(oldUnique))
      else Success(row[newUnique := row[oldUnique]] - {oldUnique})
    else Success(row)
  }

  /**
   * `items_to_add` after the loop over the row's keys has visited `keys`
   * (the row's iteration order): each moved column's value under its new
   * name, a later column winning when two share a new name.
   */
  function Renames(row: Row, keys: seq<string>, tm: TableMapping, newUnique: string): map<string, Cell>
  {
    if keys == [] then map[]
    else
      var key := keys[|keys| - 1];
      var acc := Renames(row, keys[..|keys| - 1], tm, newUnique);
      if Moves(row, tm, newUnique, key) then acc[NewName(tm, key).value := row[key]] else acc
  }

  /** The new names of the moved columns among `keys`. */
  function Targets(row: Row, keys: seq<string>, tm: TableMapping, newUnique: string): set<string>
  {
    set i | 0 <= i < |keys| && Moves(row, tm, newUnique, keys[i]) :: NewName(tm, keys[i]).value
  }

  /** items_to_add holds exactly the new names of the moved columns. */
  lemma {:induction false} RenamesKeys(row: Row, keys: seq<string>, tm: TableMapping, newUnique: string)
    ensures Renames(row, keys, tm, newUnique).Keys == Targets(row, keys, tm, newUnique)
  {
    if keys != [] {
      var init := keys[..|keys| - 1];
      RenamesKeys(row, init, tm, newUnique);
      var n := |keys| - 1;
      assert forall i :: 0 <= i < n ==> init[i] == keys[i];
      if Moves(row, tm, newUnique, keys[n]) {
        assert Targets(row, keys, tm, newUnique) == Targets(row, init, tm, newUnique) + {NewName(tm, keys[n]).value};
      } else {
        assert Targets(row, keys, tm, newUnique) == Targets(row, init, tm, newUnique);
      }
    }
  }

  /** Under each new name items_to_add holds the value of the last column moved there. */
  lemma {:induction false} RenamesValue(row: Row, keys: seq<string>, tm: TableMapping, newUnique: string, i: nat)
    requires i < |keys| && Moves(row, tm, newUnique, keys[i])
    requires forall j :: i < j < |keys| && Moves(row, tm, newUnique, keys[j]) ==> NewName(tm, keys[j]) != NewName(tm, keys[i])
    ensures NewName(tm, keys[i]).value in Renames(row, keys, tm, newUnique)
    ensures Renames(row, keys, tm, newUnique)[NewName(tm, keys[i]).value] == row[keys[i]]
  {
    var n := |keys| - 1;
    if i < n {
      var init := keys[..n];
      assert forall j :: i < j < n ==> init[j] == keys[j];
      RenamesValue(row, init, tm, newUnique, i);
    }
  }

  /** `keys_to_del`: the columns whose values moved to a new name. */
  function Moved(row: Row, tm: TableMapping, newUnique: string): set<string>
  {
    set key | key in row && Moves(row, tm, newUnique, key)
  }

  /** The row after the loop: every column the table's entry does not list is set to u''. */
  function Blanked(row: Row, tm: TableMapping, newUnique: string): Row
  {
    map key | key in row :: if key != newUnique && key !in tm then Text("") else row[key]
  }

  /**
   * The row once the moved columns are deleted and `items_to_add` is
   * written over it; `keys` is the row's iteration order.
   */
  function MapColumns(row: Row, keys: seq<string>, tm: TableMapping, newUnique: string): Row
  {
    (Blanked(row, tm, newUnique) - Moved(row, tm, newUnique)) + Renames(row, keys, tm, newUnique)
  }

  /**
   * The renaming part of load_data for one row of `table`: rename the unique
   * field, then move, keep or blank every other column as the table's entry
   * of the (folded) mapping says. A table without an entry raises KeyError
   * as soon as a column other than the new unique field is visited.
   */
  function RemapRow(keys: seq<string>, row: Row, tm: Option<TableMapping>, table: string,
                    oldUnique: string, newUnique: string): Result<Row, Error>
  {
    var renamed :- RenameUnique(row, oldUnique, newUnique);
    if tm.None? then
      if renamed.Keys - {newUnique} != {} then Failure(KeyError(table)) else Success(renamed)
    else Success(MapColumns(renamed, keys, tm.value, newUnique))
  }

  /** A column with a new name ends up under that name, unless a later column takes the same name. */
  lemma RenamedColumn(row: Row, keys: seq<string>, tm: TableMapping, newUnique: string, i: nat)
    requires i < |keys| && Moves(row, tm, newUnique, keys[i])
    requires forall j :: i < j < |keys| && Moves(row, tm, newUnique, keys[j]) ==> NewName(tm, keys[j]) != NewName(tm, keys[i])
    ensures NewName(tm, keys[i]).value in MapColumns(row, keys, tm, newUnique)
    ensures MapColumns(row, keys, tm, newUnique)[NewName(tm, keys[i]).value] == row[keys[i]]
  {
    RenamesValue(row, keys, tm, newUnique, i);
  }

  /**
   * A column that is neither the new unique field nor anybody's new name
   * keeps its value when its entry maps it to None or '', becomes u'' when
   * the table's entry does not list it, and is gone when it was renamed.
   */
  lemma OtherColumn(row: Row, keys: seq<string>, tm: TableMapping, newUnique: string, key: string)
    requires key in row && key != newUnique
    requires forall i :: 0 <= i < |keys| && Moves(row, tm, newUnique, keys[i]) ==> NewName(tm, keys[i]) != Some(key)
    ensures var r := MapColumns(row, keys, tm, newUnique);
            && (key in tm && NewName(tm, key).None? ==> key in r && r[key] == row[key])
            && (key !in tm ==> key in r && r[key] == Text(""))
            && (NewName(tm, key).Some? ==> key !in r)
  {
    RenamesKeys(row, keys, tm, newUnique);
  }

  /** The unique field is never blanked or moved; only a column renamed to its name can replace it. */
  lemma UniqueColumnKept(row: Row, keys: seq<string>, tm: TableMapping, newUnique: string)
    requires newUnique in row
    requires forall i :: 0 <= i < |keys| && Moves(row, tm, newUnique, keys[i]) ==> NewName(tm, keys[i]) != Some(newUnique)
    ensures newUnique in MapColumns(row, keys, tm, newUnique)
    ensures MapColumns(row, keys, tm, newUnique)[newUnique] == row[newUnique]
  {
    RenamesKeys(row, keys, tm, newUnique);
  }

  /**
   * With the entry `_get_default_mapping` builds for a table (every column
   * to None) and the unique field not renamed, a row comes out unchanged.
   */
  lemma DefaultEntryKeepsRow(keys: seq<string>, row: Row, table: string, oldUnique: string, newUnique: string)
    requires newUnique == "" || oldUnique == newUnique
    ensures RemapRow(keys, row, Some(map k | k in row :: None), table, oldUnique, newUnique) == Success(row)
  {
    var tm: TableMapping := map k | k in row :: None;
    assert forall k :: !Moves(row, tm, newUnique, k);
    RenamesKeys(row, keys, tm, newUnique);
    assert Targets(row, keys, tm, newUnique) == {};
    assert MapColumns(row, keys, tm, newUnique) == row;
    assert Moved(row, tm, newUnique) == {};
    assert Blanked(row, tm, newUnique) == row;
  }

  // ----- data_filter -----

  /** dic.get(key, ''). */
  function Get(row: Row, key: string): Cell
  {
    if key in row then row[key] else Text("")
  }

  /** The keys of `data_filter` (its items in iteration order) whose value the row holds. */
  function FilterMatches(filter: seq<(string, Cell)>, row: Row): (matched: seq<string>)
    ensures forall k :: k in matched ==> exists i :: 0 <= i < |filter| && filter[i].0 == k && Get(row, k) == filter[i].1
    ensures forall i :: 0 <= i < |filter| && Get(row, filter[i].0) == filter[i].1 ==> filter[i].0 in matched
  {
    if filter == [] then []
    else
      var rest := FilterMatches(filter[1..], row);
      assert forall i :: 1 <= i < |filter| ==> filter[1..][i - 1] == filter[i];
      if Get(row, filter[0].0) == filter[0].1 then [filter[0].0] + rest else rest
  }

  /** The log message for a row dropped by data_filter. */
  function FilterMessage(matched: seq<string>): string
  {
    "Found matches for data_filter(" + Lookups.Join(matched, ", ") + ").Removed."
  }

  // ----- clean -----

  /** The strings every Data instance adds to `empty_values`. */
  const DEFAULT_EMPTY_VALUES: set<string> := {"None", "NULL", "0"}

  /**
   * clean() for one value: unicode(value).strip(), or u'' when the rendered
   * value, before stripping, is one of empty_values.
   */
  function CleanCell(c: Cell, emptyValues: set<string>): (r: Cell)
    ensures r.Text? && IsStripped(r.s)
  {
    var text := Render(c);
    if text in emptyValues then Text("") else Text(Strip(text))
  }

  function CleanRow(row: Row, emptyValues: set<string>): (r: Row)
    ensures r.Keys == row.Keys
  {
    map key | key in row :: CleanCell(row[key], emptyValues)
  }

  function CleanRows(rows: seq<Row>, emptyValues: set<string>): (r: seq<Row>)
    ensures |r| == |rows|
    ensures forall i :: 0 <= i < |rows| ==> r[i] == CleanRow(rows[i], emptyValues)
  {
    seq(|rows|, i requires 0 <= i < |rows| => CleanRow(rows[i], emptyValues))
  }

  /** clean() on all loaded tables. */
  function CleanTables(data: LoadedData, emptyValues: set<string>): (r: LoadedData)
    ensures r.Keys == data.Keys
  {
    map t | t in data :: CleanRows(data[t], emptyValues)
  }

  /** Every value is a stripped unicode string. */
  predicate Cleaned(data: LoadedData)
  {
    forall t, i, key :: t in data && 0 <= i < |data[t]| && key in data[t][i] ==>
      data[t][i][key].Text? && IsStripped(data[t][i][key].s)
  }

  /**
   * After clean() every value is a stripped string, every table keeps its
   * rows and every row its columns.
   */
  lemma CleanTablesCleaned(data: LoadedData, emptyValues: set<string>)
    ensures Cleaned(CleanTables(data, emptyValues))
    ensures forall t :: t in data ==> |CleanTables(data, emptyValues)[t]| == |data[t]|
    ensures forall t, i :: t in data && 0 <= i < |data[t]| ==> CleanTables(data, emptyValues)[t][i].Keys == data[t][i].Keys
  {
    var r: LoadedData := CleanTables(data, emptyValues);
    forall t, i, key | t in r && 0 <= i < |r[t]| && key in r[t][i]
      ensures r[t][i][key].Text? && IsStripped(r[t][i][key].s)
    {
      assert r[t][i][key] == CleanCell(data[t][i][key], emptyValues);
    }
  }

  /** NULL, the integer 0 and the strings "0" and "NULL" are cleared by the default empty values. */
  lemma DefaultEmptyCleared(emptyValues: set<string>)
    requires DEFAULT_EMPTY_VALUES <= emptyValues
    ensures CleanCell(Null, emptyValues) == Text("")
    ensures CleanCell(Int(0), emptyValues) == Text("")
    ensures CleanCell(Text("0"), emptyValues) == Text("")
    ensures CleanCell(Text("NULL"), emptyValues) == Text("")
  {
    assert Render(Int(0)) == "0";
    assert "0" in DEFAULT_EMPTY_VALUES;
  }

  /**
   * The comparison with empty_values uses the value before stripping: a
   * padded " 0" is not cleared and becomes "0".
   */
  lemma PaddedEmptyKept(emptyValues: set<string>)
    requires emptyValues == DEFAULT_EMPTY_VALUES
    ensures CleanCell(Text(" 0"), emptyValues) == Text("0")
  {
    assert " 0" !in emptyValues;
    assert Leading(" 0") == 1 by {
      assert " 0"[1..] == "0";
      assert Leading("0") == 0;
    }
    assert " 0"[1..] == "0";
  }

  /** A string that is not an empty value keeps its text up to surrounding whitespace. */
  lemma CleanKeepsText(s: string, emptyValues: set<string>)
    requires s !in emptyValues && IsStripped(s)
    ensures CleanCell(Text(s), emptyValues) == Text(s)
  {
    StripStripped(s);
  }

  lemma {:induction false} StripStripped(s: string)
    requires IsStripped(s)
    ensures Strip(s) == s
  {
    if s != [] {
      assert Leading(s) == 0;
      assert s[0..] == s;
    }
  }

  // ----- _get_mapping_keys and _get_default_mapping -----

  /** `value or key`: the name a mapping entry gives a column in the output. */
  function OutputName(tm: TableMapping, key: string): string
    requires key in tm
  {
    if tm[key].Some? && tm[key].value != "" then tm[key].value else key
  }

  /**
   * _get_mapping_keys: every column name the mapping produces, over all
   * entries; an empty mapping fails the assertion.
   */
  function MappingKeys(m: Mapping): Result<set<string>, Error>
  {
    if m == map[] then Failure(AssertionError(""))
    else Success(set t, key | t in m && key in m[t] :: OutputName(m[t], key))
  }

  /**
   * _get_default_mapping(*args): for every loaded table with at least one
   * row (and named in args, when args are given), every column of its first
   * row mapped to None; no data at all fails the assertion.
   */
  function DefaultMapping(data: LoadedData, args: seq<string>): Result<Mapping, Error>
  {
    if data == map[] then Failure(AssertionError(""))
    else Success(map t | t in data && (args == [] || t in args) && data[t] != [] :: map key | key in data[t][0] :: None)
  }

  /**
   * The keys of the default mapping are exactly the columns of the first
   * rows of the tables it covers: no column is renamed.
   */
  lemma DefaultMappingKeys(data: LoadedData, args: seq<string>)
    requires data != map[]
    requires exists t :: t in data && (args == [] || t in args) && data[t] != []
    ensures DefaultMapping(data, args).Success?
    ensures MappingKeys(DefaultMapping(data, args).value).Success?
    ensures MappingKeys(DefaultMapping(data, args).value).value ==
      set t, key | t in data && (args == [] || t in args) && data[t] != [] && key in data[t][0] :: key
  {
    var m := DefaultMapping(data, args).value;
    var t :| t in data && (args == [] || t in args) && data[t] != [];
    assert t in m;
    var keys := MappingKeys(m).value;
    var expected := set t, key | t in data && (args == [] || t in args) && data[t] != [] && key in data[t][0] :: key;
    forall x | x in keys ensures x in expected {
      var t', key :| t' in m && key in m[t'] && x == OutputName(m[t'], key);
      assert x == key;
    }
    forall x | x in expected ensures x in keys {
      var t', key :| t' in data && (args == [] || t' in args) && data[t'] != [] && key in data[t'][0] && x == key;
      assert OutputName(m[t'], key) == x;
    }
  }

  /** Every new name of the mapping and every column kept under its own name is an output key. */
  lemma MappingKeysCover(m: Mapping, t: string, key: string)
    requires t in m && key in m[t]
    ensures MappingKeys(m).Success?
    ensures NewName(m[t], key).Some? ==> NewName(m[t], key).value in MappingKeys(m).value
    ensures NewName(m[t], key).None? ==> key in MappingKeys(m).value
  {
    assert OutputName(m[t], key) in MappingKeys(m).value;
  }
}
