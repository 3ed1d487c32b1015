/**
 * What Data.merge (soupmigration/base.py) computes: one record per
 * non-empty unique value, seeded with u'' for every mapped column, then
 * overlaid with the non-empty values of the matching rows of each table in
 * reverse table order (so the first table listed wins), sorted by the unique
 * value. The records are given here as a predicate on the result, with the
 * record of every unique value as a function, and proved to determine the
 * result.
 */
module Merging {
  import opened Wrappers
  import opened Values

  /** A cleaned row or a merged record: column to unicode string. */
  type Record = map<string, string>

  /** The cleaned tables, by table name. */
  type TextTables = map<string, seq<Record>>

  // ----- Ordering of unicode strings -----

  /** Python's `<` on unicode strings: lexicographic by character, a proper prefix first. */
  predicate Below(a: string, b: string)
    decreases |a|
  {
    if a == [] then b != []
    else if b == [] then false
    else if a[0] != b[0] then a[0] < b[0]
    else Below(a[1..], b[1..])
  }

  lemma {:induction false} BelowIrreflexive(a: string)
    ensures !Below(a, a)
    decreases |a|
  {
    if a != [] {
      BelowIrreflexive(a[1..]);
    }
  }

  lemma {:induction false} BelowTransitive(a: string, b: string, c: string)
    requires Below(a, b) && Below(b, c)
    ensures Below(a, c)
    decreases |a|
  {
    if a != [] && a[0] == b[0] && b[0] == c[0] {
      BelowTransitive(a[1..], b[1..], c[1..]);
    }
  }

  /** Two different strings are ordered one way or the other. */
  lemma {:induction false} BelowTotal(a: string, b: string)
    requires a != b
    ensures Below(a, b) || Below(b, a)
    decreases |a|
  {
    if a != [] && b != [] && a[0] == b[0] {
      assert a == [a[0]] + a[1..] && b == [b[0]] + b[1..];
      BelowTotal(a[1..], b[1..]);
    }
  }

  lemma {:induction false} BelowAsymmetric(a: string, b: string)
    ensures !(Below(a, b) && Below(b, a))
    decreases |a|
  {
    if a != [] && b != [] && a[0] == b[0] {
      BelowAsymmetric(a[1..], b[1..]);
    }
  }

  /** Not below means at least: the order is total. */
  lemma NotBelow(a: string, b: string)
    ensures !Below(b, a) <==> a == b || Below(a, b)
  {
    BelowIrreflexive(a);
    BelowAsymmetric(a, b);
    if a != b { BelowTotal(a, b); }
  }

  lemma NotBelowTransitive(a: string, b: string, c: string)
    requires !Below(b, a) && !Below(c, b)
    ensures !Below(c, a)
  {
    NotBelow(a, b);
    NotBelow(b, c);
    NotBelow(a, c);
    if a != b && b != c {
      BelowTransitive(a, b, c);
    }
  }

  /** The strings of s are strictly increasing. */
  predicate StrictlyIncreasing(s: seq<string>)
  {
    forall i, j :: 0 <= i < j < |s| ==> Below(s[i], s[j])
  }

  /** A finite set of strings has exactly one strictly increasing enumeration. */
  lemma {:induction false} IncreasingUnique(a: seq<string>, b: seq<string>)
    requires StrictlyIncreasing(a) && StrictlyIncreasing(b)
    requires forall x :: x in a <==> x in b
    ensures a == b
    decreases |a|
  {
    assert a != [] ==> a[0] in b;
    assert b != [] ==> b[0] in a;
    if a != [] {
      BelowAsymmetric(a[0], b[0]);
      assert a[0] == b[0];
      forall x ensures x in a[1..] <==> x in b[1..] {
        BelowIrreflexive(x);
        if x in a[1..] {
          var i :| 1 <= i < |a| && a[i] == x;
          assert x in b;
        }
        if x in b[1..] {
          var i :| 1 <= i < |b| && b[i] == x;
          assert x in a;
        }
      }
      IncreasingUnique(a[1..], b[1..]);
      assert a == [a[0]] + a[1..] && b == [b[0]] + b[1..];
    }
  }

  // ----- The records -----

  /** `filter(None, unique_items)`: the non-empty unique values of all rows of all tables. */
  function UniqueValues(data: TextTables, unique: string): set<string>
  {
    set t, i | t in data && 0 <= i < |data[t]| && unique in data[t][i] && data[t][i][unique] != "" :: data[t][i][unique]
  }

  /** `dict(default_dic.items() + [[unique_field, value]])`: every mapped column u'', the unique value set. */
  function Seed(keys: set<string>, unique: string, u: string): (r: Record)
    ensures r.Keys == keys + {unique} && r[unique] == u
    ensures forall k :: k in keys && k != unique ==> r[k] == ""
  {
    (map k | k in keys :: "")[unique := u]
  }

  /** `[d for d in dic.items() if d[1]]`: the row's non-empty values. */
  function NonEmpty(row: Record): (r: Record)
    ensures forall k :: k in r <==> k in row && row[k] != ""
    ensures forall k :: k in r ==> r[k] == row[k]
  {
    map k | k in row && row[k] != "" :: row[k]
  }

  /** The row belongs to the record of unique value u. */
  predicate Matches(row: Record, unique: string, u: string)
  {
    unique in row && row[unique] == u
  }

  /** The rows of the tables of `order`, in the order merge visits them: last table first. */
  function Pending(data: TextTables, order: seq<string>): seq<Record>
  {
    if order == [] then []
    else Pending(data, order[1..]) + (if order[0] in data then data[order[0]] else [])
  }

  /** The record after `m_dic.update(...)` with every row of `rows` that matches it, in turn. */
  function Overlay(record: Record, rows: seq<Record>, unique: string, u: string): Record
  {
    if rows == [] then record
    else
      var prev := Overlay(record, rows[..|rows| - 1], unique, u);
      var row := rows[|rows| - 1];
      if Matches(row, unique, u) then prev + NonEmpty(row) else prev
  }

  /** The merged record of unique value u. */
  function MergedRecord(data: TextTables, keys: set<string>, unique: string, order: seq<string>, u: string): Record
  {
    Overlay(Seed(keys, unique, u), Pending(data, order), unique, u)
  }

  /** Every record carries the unique field. */
  predicate AllHave(records: seq<Record>, unique: string)
  {
    forall i :: 0 <= i < |records| ==> unique in records[i]
  }

  /** The unique values of the records, in order. */
  function UniqueColumn(records: seq<Record>, unique: string): (r: seq<string>)
    requires AllHave(records, unique)
    ensures |r| == |records| && forall i :: 0 <= i < |records| ==> r[i] == records[i][unique]
  {
    seq(|records|, i requires 0 <= i < |records| => records[i][unique])
  }

  /**
   * `merged_data` after a merge that raised nothing: one record per
   * non-empty unique value, each the merged record of its value, sorted
   * strictly by the unique value.
   */
  ghost predicate IsMergeResult(merged: seq<Record>, data: TextTables, keys: set<string>, unique: string, order: seq<string>)
  {
    && AllHave(merged, unique)
    && StrictlyIncreasing(UniqueColumn(merged, unique))
    && (forall x :: x in UniqueColumn(merged, unique) <==> x in UniqueValues(data, unique))
    && forall i :: 0 <= i < |merged| ==> merged[i] == MergedRecord(data, keys, unique, order, merged[i][unique])
  }

  /** The merge result is determined by the tables, the mapped columns, the unique field and the table order. */
  lemma MergeResultUnique(a: seq<Record>, b: seq<Record>, data: TextTables, keys: set<string>, unique: string, order: seq<string>)
    requires IsMergeResult(a, data, keys, unique, order) && IsMergeResult(b, data, keys, unique, order)
    ensures a == b
  {
    var ka := UniqueColumn(a, unique);
    var kb := UniqueColumn(b, unique);
    IncreasingUnique(ka, kb);
    assert forall i :: 0 <= i < |a| ==> a[i] == b[i];
  }

  // ----- What a merged record holds -----

  /** Overlaying never removes a column. */
  lemma {:induction false} OverlayKeeps(record: Record, rows: seq<Record>, unique: string, u: string, k: string)
    requires k in record
    ensures k in Overlay(record, rows, unique, u)
    decreases |rows|
  {
    if rows != [] {
      OverlayKeeps(record, rows[..|rows| - 1], unique, u, k);
    }
  }

  /** A column no matching row fills keeps its seeded value. */
  lemma {:induction false} OverlayUntouched(record: Record, rows: seq<Record>, unique: string, u: string, k: string)
    requires forall i :: 0 <= i < |rows| && Matches(rows[i], unique, u) ==> k !in NonEmpty(rows[i])
    ensures k in Overlay(record, rows, unique, u) <==> k in record
    ensures k in record ==> Overlay(record, rows, unique, u)[k] == record[k]
    decreases |rows|
  {
    if rows != [] {
      var init := rows[..|rows| - 1];
      assert forall i :: 0 <= i < |init| ==> init[i] == rows[i];
      OverlayUntouched(record, init, unique, u, k);
    }
  }

  /** A column holds the value of the last matching row with a non-empty value for it. */
  lemma {:induction false} OverlayLast(record: Record, rows: seq<Record>, unique: string, u: string, k: string, p: nat)
    requires p < |rows| && Matches(rows[p], unique, u) && k in NonEmpty(rows[p])
    requires forall i :: p < i < |rows| && Matches(rows[i], unique, u) ==> k !in NonEmpty(rows[i])
    ensures k in Overlay(record, rows, unique, u) && Overlay(record, rows, unique, u)[k] == rows[p][k]
    decreases |rows|
  {
    var init := rows[..|rows| - 1];
    if p < |rows| - 1 {
      assert forall i :: 0 <= i < |init| ==> init[i] == rows[i];
      OverlayLast(record, init, unique, u, k, p);
    }
  }

  /** The unique field of a record keeps its value: matching rows hold the same value there. */
  lemma {:induction false} UniqueStays(record: Record, rows: seq<Record>, unique: string, u: string)
    requires unique in record && record[unique] == u
    ensures unique in Overlay(record, rows, unique, u) && Overlay(record, rows, unique, u)[unique] == u
    decreases |rows|
  {
    if rows != [] {
      UniqueStays(record, rows[..|rows| - 1], unique, u);
    }
  }

  /** Rows not matching u leave u's record alone. */
  lemma {:induction false} OverlayAppend(record: Record, rows: seq<Record>, more: seq<Record>, unique: string, u: string)
    requires forall i :: 0 <= i < |more| ==> !Matches(more[i], unique, u)
    ensures Overlay(record, rows + more, unique, u) == Overlay(record, rows, unique, u)
    decreases |more|
  {
    if more != [] {
      var all := rows + more;
      assert all[..|all| - 1] == rows + more[..|more| - 1];
      OverlayAppend(record, rows, more[..|more| - 1], unique, u);
    } else {
      assert rows + more == rows;
    }
  }

  /**
   * A merged record holds every mapped column and the unique field, its
   * unique value is u, and a column no matching row fills stays u''.
   */
  lemma MergedRecordShape(data: TextTables, keys: set<string>, unique: string, order: seq<string>, u: string, k: string)
    ensures keys + {unique} <= MergedRecord(data, keys, unique, order, u).Keys
    ensures MergedRecord(data, keys, unique, order, u)[unique] == u
    ensures k in keys && k != unique &&
            (forall i :: 0 <= i < |Pending(data, order)| && Matches(Pending(data, order)[i], unique, u) ==>
               k !in NonEmpty(Pending(data, order)[i]))
            ==> MergedRecord(data, keys, unique, order, u)[k] == ""
  {
    var rows := Pending(data, order);
    var seed := Seed(keys, unique, u);
    forall c | c in keys + {unique} ensures c in MergedRecord(data, keys, unique, order, u) {
      OverlayKeeps(seed, rows, unique, u, c);
    }
    UniqueStays(seed, rows, unique, u);
    if k in keys && k != unique &&
       (forall i :: 0 <= i < |rows| && Matches(rows[i], unique, u) ==> k !in NonEmpty(rows[i])) {
      OverlayUntouched(seed, rows, unique, u, k);
    }
  }

  /** Merge visits the tables of order[1..] first and then the rows of order[0]. */
  lemma PendingFirst(data: TextTables, order: seq<string>)
    requires order != [] && order[0] in data
    ensures Pending(data, order) == Pending(data, order[1..]) + data[order[0]]
  {
  }

  /**
   * The first table of the order wins: when one of its rows matching u has
   * a non-empty value for a column, the record holds the value of the last
   * such row, whatever the other tables hold.
   */
  lemma FirstTableWins(data: TextTables, keys: set<string>, unique: string, order: seq<string>, u: string, k: string, p: nat)
    requires order != [] && order[0] in data
    requires p < |data[order[0]]| && Matches(data[order[0]][p], unique, u) && k in NonEmpty(data[order[0]][p])
    requires forall i :: p < i < |data[order[0]]| && Matches(data[order[0]][i], unique, u) ==> k !in NonEmpty(data[order[0]][i])
    ensures k in MergedRecord(data, keys, unique, order, u)
    ensures MergedRecord(data, keys, unique, order, u)[k] == data[order[0]][p][k]
  {
    var before := Pending(data, order[1..]);
    var rows := before + data[order[0]];
    PendingFirst(data, order);
    var q := |before| + p;
    assert rows[q] == data[order[0]][p];
    forall i | q < i < |rows| && Matches(rows[i], unique, u) ensures k !in NonEmpty(rows[i]) {
      assert rows[i] == data[order[0]][i - |before|];
    }
    OverlayLast(Seed(keys, unique, u), rows, unique, u, k, q);
  }

  /** The last matching row that holds a non-empty value for k. */
  function LastFilling(rows: seq<Record>, unique: string, u: string, k: string): (p: nat)
    requires exists i :: 0 <= i < |rows| && Matches(rows[i], unique, u) && k in NonEmpty(rows[i])
    ensures p < |rows| && Matches(rows[p], unique, u) && k in NonEmpty(rows[p])
    ensures forall i :: p < i < |rows| && Matches(rows[i], unique, u) ==> k !in NonEmpty(rows[i])
  {
    var last := rows[|rows| - 1];
    if Matches(last, unique, u) && k in NonEmpty(last) then |rows| - 1
    else
      var init := rows[..|rows| - 1];
      assert forall i :: 0 <= i < |init| ==> init[i] == rows[i];
      LastFilling(init, unique, u, k)
  }

  /** Empty values never overwrite: a column some matching row fills is never u'' in the record. */
  lemma NoEmptyOverwrite(data: TextTables, keys: set<string>, unique: string, order: seq<string>, u: string, k: string)
    requires exists i :: 0 <= i < |Pending(data, order)| && Matches(Pending(data, order)[i], unique, u) &&
                         k in NonEmpty(Pending(data, order)[i])
    ensures k in MergedRecord(data, keys, unique, order, u)
    ensures MergedRecord(data, keys, unique, order, u)[k] != ""
  {
    var rows := Pending(data, order);
    var p := LastFilling(rows, unique, u, k);
    OverlayLast(Seed(keys, unique, u), rows, unique, u, k, p);
  }

  // ----- Sorting -----

  /** Inserting a record before the first record whose unique value is not below its own. */
  function Insert(x: Record, sorted: seq<Record>, unique: string): (r: seq<Record>)
    requires unique in x && AllHave(sorted, unique)
    ensures AllHave(r, unique) && multiset(r) == multiset(sorted) + multiset{x}
    ensures forall i :: 0 <= i < |r| ==> r[i] == x || r[i] in sorted
  {
    if sorted == [] then [x]
    else if Below(sorted[0][unique], x[unique]) then
      assert sorted == [sorted[0]] + sorted[1..];
      [sorted[0]] + Insert(x, sorted[1..], unique)
    else [x] + sorted
  }

  /** No record comes after one whose unique value is below its own. */
  predicate Ordered(records: seq<Record>, unique: string)
    requires AllHave(records, unique)
  {
    forall i, j :: 0 <= i < j < |records| ==> !Below(records[j][unique], records[i][unique])
  }

  lemma {:induction false} InsertOrdered(x: Record, sorted: seq<Record>, unique: string)
    requires unique in x && AllHave(sorted, unique) && Ordered(sorted, unique)
    ensures Ordered(Insert(x, sorted, unique), unique)
    decreases |sorted|
  {
    if sorted == [] {
    } else if Below(sorted[0][unique], x[unique]) {
      InsertOrdered(x, sorted[1..], unique);
      InsertAfterHead(x, sorted, unique);
    } else {
      InsertAtFront(x, sorted, unique);
    }
  }

  /** A record that no later record is below can be put in front of an ordered sequence. */
  lemma ConsOrdered(head: Record, tail: seq<Record>, unique: string)
    requires unique in head && AllHave(tail, unique) && Ordered(tail, unique)
    requires forall j :: 0 <= j < |tail| ==> !Below(tail[j][unique], head[unique])
    ensures AllHave([head] + tail, unique) && Ordered([head] + tail, unique)
  {
    var r := [head] + tail;
    forall i, j | 0 <= i < j < |r| ensures !Below(r[j][unique], r[i][unique]) {
      assert r[j] == tail[j - 1];
      if i > 0 {
        assert r[i] == tail[i - 1];
      }
    }
  }

  /** x goes first when the head is not below it. */
  lemma InsertAtFront(x: Record, sorted: seq<Record>, unique: string)
    requires unique in x && AllHave(sorted, unique) && Ordered(sorted, unique)
    requires sorted != [] && !Below(sorted[0][unique], x[unique])
    ensures Ordered(Insert(x, sorted, unique), unique)
  {
    assert Insert(x, sorted, unique) == [x] + sorted;
    forall j | 0 <= j < |sorted| ensures !Below(sorted[j][unique], x[unique]) {
      if j > 0 {
        NotBelowTransitive(x[unique], sorted[0][unique], sorted[j][unique]);
      }
    }
    ConsOrdered(x, sorted, unique);
  }

  /** No record after the head of an ordered sequence is below it. */
  lemma HeadFirst(sorted: seq<Record>, unique: string)
    requires AllHave(sorted, unique) && Ordered(sorted, unique) && sorted != []
    ensures forall y :: y in sorted[1..] ==> !Below(y[unique], sorted[0][unique])
  {
    forall y | y in sorted[1..] ensures !Below(y[unique], sorted[0][unique]) {
      var m :| 0 <= m < |sorted[1..]| && sorted[1..][m] == y;
      assert sorted[m + 1] == y;
    }
  }

  /** The head stays first when it is below x and the rest, with x inserted, is ordered. */
  lemma InsertAfterHead(x: Record, sorted: seq<Record>, unique: string)
    requires unique in x && AllHave(sorted, unique) && Ordered(sorted, unique)
    requires sorted != [] && Below(sorted[0][unique], x[unique])
    requires Ordered(Insert(x, sorted[1..], unique), unique)
    ensures Ordered(Insert(x, sorted, unique), unique)
  {
    var tail := Insert(x, sorted[1..], unique);
    assert Insert(x, sorted, unique) == [sorted[0]] + tail;
    BelowAsymmetric(sorted[0][unique], x[unique]);
    HeadFirst(sorted, unique);
    ConsOrdered(sorted[0], tail, unique);
  }

  /** `sorted(records, key=lambda dic: dic[unique])`. */
  function SortByUnique(records: seq<Record>, unique: string): (r: seq<Record>)
    requires AllHave(records, unique)
    ensures AllHave(r, unique) && multiset(r) == multiset(records)
  {
    if records == [] then []
    else
      assert records == [records[0]] + records[1..];
      Insert(records[0], SortByUnique(records[1..], unique), unique)
  }

  lemma {:induction false} SortOrdered(records: seq<Record>, unique: string)
    requires AllHave(records, unique)
    ensures Ordered(SortByUnique(records, unique), unique)
  {
    if records != [] {
      SortOrdered(records[1..], unique);
      InsertOrdered(records[0], SortByUnique(records[1..], unique), unique);
    }
  }

  /** No two records share a unique value. */
  predicate DistinctUnique(records: seq<Record>, unique: string)
    requires AllHave(records, unique)
  {
    forall i, j :: 0 <= i < j < |records| ==> records[i][unique] != records[j][unique]
  }

  /** A record whose unique value no other record shares occurs once. */
  lemma {:induction false} DistinctOnce(records: seq<Record>, unique: string, a: nat)
    requires AllHave(records, unique) && a < |records| && DistinctUnique(records, unique)
    ensures multiset(records)[records[a]] == 1
    decreases |records|
  {
    var last := |records| - 1;
    var init := records[..last];
    assert records == init + [records[last]];
    if a == last {
      forall i | 0 <= i < |init| ensures init[i] != records[a] {
        assert init[i][unique] == records[i][unique];
      }
      assert records[a] !in init;
    } else {
      DistinctOnce(init, unique, a);
      assert records[last] != records[a] by {
        assert records[last][unique] != records[a][unique];
      }
    }
  }

  /** Two positions holding the same record make it occur twice. */
  lemma {:induction false} TwiceCounted(r: seq<Record>, i: nat, j: nat)
    requires i < j < |r| && r[i] == r[j]
    ensures multiset(r)[r[i]] >= 2
  {
    assert r == r[..i] + [r[i]] + r[i + 1..j] + [r[j]] + r[j + 1..];
  }

  /** Reordering keeps unique values distinct. */
  lemma PermutationDistinct(r: seq<Record>, records: seq<Record>, unique: string)
    requires AllHave(records, unique) && AllHave(r, unique)
    requires multiset(r) == multiset(records) && DistinctUnique(records, unique)
    ensures DistinctUnique(r, unique)
  {
    forall i, j | 0 <= i < j < |r| ensures r[i][unique] != r[j][unique] {
      assert r[i] in multiset(records) && r[j] in multiset(records);
      var a :| 0 <= a < |records| && records[a] == r[i];
      var b :| 0 <= b < |records| && records[b] == r[j];
      if a == b {
        DistinctOnce(records, unique, a);
        TwiceCounted(r, i, j);
      }
    }
  }

  /** Sorting records with distinct unique values orders them strictly and keeps their unique values. */
  lemma SortStrict(records: seq<Record>, unique: string)
    requires AllHave(records, unique) && DistinctUnique(records, unique)
    ensures StrictlyIncreasing(UniqueColumn(SortByUnique(records, unique), unique))
    ensures forall x :: x in UniqueColumn(SortByUnique(records, unique), unique) <==> x in UniqueColumn(records, unique)
  {
    var r := SortByUnique(records, unique);
    SortOrdered(records, unique);
    PermutationDistinct(r, records, unique);
    var col := UniqueColumn(r, unique);
    forall i, j | 0 <= i < j < |r| ensures Below(col[i], col[j]) {
      NotBelow(col[i], col[j]);
    }
    SameElements(r, records, unique);
  }

  /** Records with the same elements have the same unique values. */
  lemma SameElements(r: seq<Record>, records: seq<Record>, unique: string)
    requires AllHave(records, unique) && AllHave(r, unique) && multiset(r) == multiset(records)
    ensures forall x :: x in UniqueColumn(r, unique) <==> x in UniqueColumn(records, unique)
  {
    forall x ensures x in UniqueColumn(r, unique) <==> x in UniqueColumn(records, unique) {
      if x in UniqueColumn(r, unique) {
        var i :| 0 <= i < |r| && UniqueColumn(r, unique)[i] == x;
        assert r[i] in multiset(records);
        var a :| 0 <= a < |records| && records[a] == r[i];
        assert UniqueColumn(records, unique)[a] == x;
      }
      if x in UniqueColumn(records, unique) {
        var a :| 0 <= a < |records| && UniqueColumn(records, unique)[a] == x;
        assert records[a] in multiset(r);
        var i :| 0 <= i < |r| && r[i] == records[a];
        assert UniqueColumn(r, unique)[i] == x;
      }
    }
  }

  // ----- Errors -----

  /** The last table of `order` that was not loaded: the first one merge looks up and misses. */
  function LastMissing(order: seq<string>, data: TextTables): (r: Option<string>)
    ensures r.Some? ==> r.value in order && r.value !in data
    ensures r.None? ==> forall i :: 0 <= i < |order| ==> order[i] in data
  {
    if order == [] then None
    else if order[|order| - 1] !in data then Some(order[|order| - 1])
    else
      var init := order[..|order| - 1];
      assert forall i :: 0 <= i < |init| ==> init[i] == order[i];
      LastMissing(init, data)
  }

  /** Some row of a loaded table lacks the unique field. */
  predicate SomeRowLacks(data: TextTables, unique: string)
  {
    exists t, i :: t in data && 0 <= i < |data[t]| && unique !in data[t][i]
  }
}
