# soupmigration in Dafny

A model of the core of django-soupmigration, a tool for moving data from a legacy
MySQL database into Django models, together with proofs about that model.

- **Lookup translation** (`soupmigration/utils.py`, module `Lookups`):
  - `regex_lookups` rewrites `field__[i]contains/startswith/endswith` lookups into `field__[i]regex` lookups. The value's alphanumeric runs are joined by `.*`, and wildcards are added by suffix.
  - `remove_lookup_type` cuts every key at its first `__`.
- **Data** (`soupmigration/base.py`, modules `Tables`, `Merging`, `Loading`):
  - `load_data` with its per-row reshaping: the arity assertion, the `'all'` mapping fold, renaming of the unique column and of mapped columns, blanking of unmapped columns, and dropping rows that match `data_filter`, which are logged.
  - `clean`, `_get_mapping_keys`, `_get_default_mapping` and `merge`. Merge seeds one record per non-empty unique value, overlays the rows in reverse `table_order` with their non-empty values, then sorts by unique value.
  - The class `Data` holds the state these update in place.
- **Log** (`Logs`): `Log.add` keeps one entry per message and appends only the new affected items.
- **Migration** (`Migrations`): `prepare_m2m`, `item_exists` and `get_duplicates`.

The database is a value: its tables, columns and rows. The user-supplied `remove`/`split` regular expressions are a parameter (`RegexEngine`). Python dicts whose iteration order matters are given as sequences of pairs in that order. When two m2m entries share a key name, Python keeps the first entry's list in `m2m_dict` while the second appends raw values to it; the model tracks which field's list each key name still holds (`Migrations.Owner`) and stores the appends there too. Exceptions are the `Error` datatype, returned in a `Result` or as `Option<Error>`.

The specification and the code disagree in two places; the model follows the code:
- The `regex_lookups` docstring writes the translated key of its example as `name_regex`, but the code produces `name__iregex`. `Lookups.DocExample` proves the code's result.
- `item_exists` is described as matching fields "unique (together)". The code compares the *sets* of the field values. So a row holding the item's two values the other way round counts as a match (`Migrations.SwappedValuesClash`).

## Model

| member | source | states |
|---|---|---|
| Lookups.RegexLookups | soupmigration/utils.py:4-35 | the loop building `regex_dict` computes the specification: TypeError for a non-dict, else each key translated in turn, a later entry winning on a shared key, the first ValueError stopping it |
| Lookups.RegexDictStops | soupmigration/utils.py:19-34 | once an entry raises, later entries do not change the outcome |
| Lookups.NotADictRaises | soupmigration/utils.py:13-14 | an argument that is not a dict raises TypeError |
| Lookups.PassThrough | soupmigration/utils.py:20-34 | a key not ending in contains/startswith/endswith is kept, with its value rendered by unicode() |
| Lookups.AcceptedKey | soupmigration/utils.py:22-25 | an accepted key is translated iff it has exactly two alphanumeric runs (else ValueError); the new key is the first run + `__iregex` when the second starts with `i`, else + `__regex` |
| Lookups.Wildcards | soupmigration/utils.py:26-33 | the value becomes its alphanumeric runs joined by `.*`, with `.*` appended for startswith, prepended for endswith, both for contains; no anchors |
| Lookups.PatternShape | soupmigration/utils.py:26-33 | the same three wildcard shapes, stated of the pattern builder for any method name |
| Lookups.LastRunKeepsSuffix | soupmigration/utils.py:22-28 | when the key ends with an accepted suffix, so does its last alphanumeric run, the method the wildcards are chosen by |
| Lookups.OneSuffix | soupmigration/utils.py:28-33 | the three suffixes exclude each other, so the if/elif/else picks the wildcard of the suffix the key has |
| Lookups.LastRunSuffix | soupmigration/utils.py:23 | an alphanumeric suffix of the scanned text ends the last run `re.findall` returns |
| Lookups.RunsAreAlnum | soupmigration/utils.py:23 | the runs `[A-Za-z0-9]+` finds from any scanning state are non-empty and purely alphanumeric |
| Lookups.AlnumRuns | soupmigration/utils.py:23 | the runs of a string are non-empty and purely alphanumeric |
| Lookups.ScanRun | soupmigration/utils.py:23 | alphanumeric characters extend the current run |
| Lookups.ScanGap | soupmigration/utils.py:23 | a stretch of other characters ends the current run |
| Lookups.WordThenGap | soupmigration/utils.py:23 | a word followed by other characters is one run, and the scan starts afresh after them |
| Lookups.LastWord | soupmigration/utils.py:23 | a lone alphanumeric word is a single run |
| Lookups.ConcatAppend | soupmigration/utils.py:26 | joining the runs of two pieces is joining each piece's runs |
| Lookups.TwoRuns | soupmigration/utils.py:23 | two alphanumeric words separated by other characters give exactly those two runs |
| Lookups.ThreeRuns | soupmigration/utils.py:26 | three alphanumeric words separated by other characters give exactly those three runs |
| Lookups.RunsKeepAlnum | soupmigration/utils.py:26 | the runs hold exactly the alphanumeric characters of the value, in order: no other character survives |
| Lookups.DocExample | soupmigration/utils.py:10-11 | `{name__istartswith: 'the .lookup/value'}` becomes `{name__iregex: 'the.*lookup.*value.*'}` |
| Lookups.DocTranslate | soupmigration/utils.py:10-11 | the docstring's single lookup translates to `('name__iregex', 'the.*lookup.*value.*')` |
| Lookups.DocPattern | soupmigration/utils.py:26-29 | the docstring's value under `istartswith` becomes `the.*lookup.*value.*` |
| Lookups.NameRuns | soupmigration/utils.py:23 | `name__istartswith` has the runs `name` and `istartswith` |
| Lookups.DocKeyRuns | soupmigration/utils.py:23 | `name__istartswith` is accepted and splits into `name`, `istartswith` |
| Lookups.DocValueRuns | soupmigration/utils.py:26 | `the .lookup/value` splits into `the`, `lookup`, `value` |
| Lookups.UnderscoreFieldFails | soupmigration/utils.py:23 | `first_name__contains` has three runs, so the unpacking raises ValueError |
| Lookups.LineEnd | soupmigration/utils.py:43 | the position of the first newline, or the end: the extent `.*` matches |
| Lookups.CutLookupType | soupmigration/utils.py:43 | `re.sub('__.*', '', k)` keeps the key's start up to the first `__` (and whatever follows a newline after it) |
| Lookups.CutHasNoDoubleUnderscore | soupmigration/utils.py:43 | a cut key contains no `__` |
| Lookups.CutWithoutDoubleUnderscore | soupmigration/utils.py:43 | a key without `__` is unchanged |
| Lookups.CutAtFirst | soupmigration/utils.py:43 | a one-line key is cut exactly at its first `__` |
| Lookups.RemoveLookupType | soupmigration/utils.py:38-43 | no key of the result contains `__` |
| Lookups.ToMapKeys | soupmigration/utils.py:43 | every key of the dict comes from an item |
| Lookups.RemoveKeepsPlainKeys | soupmigration/utils.py:38-43 | when no key has `__`, the result is the dict itself |
| Lookups.RemoveLookupTypeIdempotent | soupmigration/utils.py:38-43 | applying `remove_lookup_type` twice equals applying it once |
| Lookups.RemoveKeepsValues | soupmigration/utils.py:43 | each value appears under its cut key unless a later item has the same cut key |
| Lookups.RegexKeyCut | soupmigration/utils.py:25 | cutting a translated key gives back the field name |
| Lookups.CutRegexKey | soupmigration/utils.py:25 | a key `field__regex` or `field__iregex` over an alphanumeric field is cut back to the field |
| Tables.WideRowRejected | soupmigration/base.py:132 | with the identity test, a row of more than 256 cells is rejected even though it fits its columns |
| Tables.NarrowRowsAgree | soupmigration/base.py:132 | for at most 256 columns the identity test and the equality test agree |
| Tables.ZipPrefix | soupmigration/base.py:133 | `dict(zip(keys, row))` holds each column, with the cell of its last occurrence |
| Tables.ZipCells | soupmigration/base.py:133 | with distinct columns, each column maps to its own cell |
| Tables.FoldAll | soupmigration/base.py:137-139 | `'all'` is removed; every table gets its entries; an `'all'` entry overrides the table's own; nothing else is added |
| Tables.FoldAllIdempotent | soupmigration/base.py:137-139 | folding again, as every later row does, changes nothing |
| Tables.RenameUnique | soupmigration/base.py:146-149 | iff a new unique name is given and differs, the old column's value moves to it and the old name goes; KeyError iff the old column is missing; otherwise the row is unchanged |
| Tables.RenamesKeys | soupmigration/base.py:151-166 | the added columns are exactly the truthy targets of the row's columns |
| Tables.RenamesValue | soupmigration/base.py:154-166 | a renamed column's value appears under its target (the last column renamed to a target wins) |
| Tables.RenamedColumn | soupmigration/base.py:154-166 | after remapping, a column with a truthy target has its value under the target |
| Tables.OtherColumn | soupmigration/base.py:151-164 | a column mapped to None keeps its value, a column missing from the table mapping is blanked to `''`, a renamed column is gone |
| Tables.UniqueColumnKept | soupmigration/base.py:151-153 | the new unique column is never renamed or blanked |
| Tables.DefaultEntryKeepsRow | soupmigration/base.py:154-159 | under a table mapping of all-None targets, as `_get_default_mapping` builds, the row is unchanged |
| Tables.FilterMatches | soupmigration/base.py:169-173 | the matched keys are exactly the data_filter keys whose value `dic.get(key, '')` equals |
| Values.Strip | soupmigration/base.py:194 | `strip()` leaves no whitespace at either end |
| Values.StripCuts | soupmigration/base.py:194 | what `strip()` keeps is the input's middle after its leading whitespace, and every character cut off either end is whitespace |
| Values.StripMiddle | soupmigration/base.py:194 | the stripped string is the slice of the input that follows its leading whitespace |
| Values.StripTail | soupmigration/base.py:194 | every character after the stripped slice is whitespace |
| Values.Leading | soupmigration/base.py:194 | the leading whitespace `strip()` removes |
| Values.TrimRight | soupmigration/base.py:194 | the trailing whitespace `strip()` removes |
| Values.Digits | soupmigration/base.py:192-193 | `unicode()` of an integer: non-empty decimal digits, no leading zero |
| Tables.CleanCell | soupmigration/base.py:191-197 | every cleaned value is a stripped string |
| Tables.CleanRow | soupmigration/base.py:191-197 | cleaning keeps the row's columns |
| Tables.CleanRows | soupmigration/base.py:190-197 | cleaning keeps the row count, each row cleaned |
| Tables.CleanTables | soupmigration/base.py:189-197 | cleaning keeps the tables |
| Tables.CleanTablesCleaned | soupmigration/base.py:189-197 | after clean every value is text; table sizes and column sets are unchanged |
| Tables.DefaultEmptyCleared | soupmigration/base.py:93 | NULL, 0, `'0'` and `'NULL'` are blanked by the values every instance adds |
| Tables.PaddedEmptyKept | soupmigration/base.py:194-197 | `' 0'` becomes `'0'`: the empty test is made on the unstripped string |
| Tables.CleanKeepsText | soupmigration/base.py:192-197 | a stripped string that is not an empty value is kept as is |
| Tables.StripStripped | soupmigration/base.py:194 | stripping a stripped string changes nothing |
| Tables.DefaultMappingKeys | soupmigration/base.py:207-216 | the default mapping's keys are the columns of the first row of each selected non-empty table |
| Tables.MappingKeysCover | soupmigration/base.py:199-205 | every mapped column contributes `value or key` to the mapping keys |
| Merging.BelowIrreflexive | soupmigration/base.py:257-258 | the string order of `sorted` is irreflexive |
| Merging.BelowTransitive | soupmigration/base.py:257-258 | the string order is transitive |
| Merging.BelowTotal | soupmigration/base.py:257-258 | distinct strings are ordered one way or the other |
| Merging.BelowAsymmetric | soupmigration/base.py:257-258 | the string order is asymmetric |
| Merging.NotBelow | soupmigration/base.py:257-258 | not below means equal or above |
| Merging.NotBelowTransitive | soupmigration/base.py:257-258 | "not above" is transitive |
| Merging.IncreasingUnique | soupmigration/base.py:257-258 | two strictly increasing sequences with the same elements are equal |
| Merging.Seed | soupmigration/base.py:238-244 | a seeded record has every mapping key as `''` plus the unique field set to its value |
| Merging.NonEmpty | soupmigration/base.py:254 | the update holds exactly the row's non-empty values |
| Merging.UniqueColumn | soupmigration/base.py:257-258 | the unique values of the records, in order |
| Merging.MergeResultUnique | soupmigration/base.py:230-258 | the merge result is determined by the tables, mapping keys, unique field and table order |
| Merging.OverlayKeeps | soupmigration/base.py:249-256 | overlaying never removes a field |
| Merging.OverlayUntouched | soupmigration/base.py:253-255 | a field no matching row fills keeps its seeded value |
| Merging.OverlayLast | soupmigration/base.py:249-256 | a field takes the value of the last matching row that fills it |
| Merging.UniqueStays | soupmigration/base.py:252-255 | the unique field keeps the record's value |
| Merging.OverlayAppend | soupmigration/base.py:251-252 | rows of other unique values do not touch a record |
| Merging.MergedRecordShape | soupmigration/base.py:238-244 | a merged record has every mapping key and the unique field; a key no table fills is `''` |
| Merging.PendingFirst | soupmigration/base.py:248-249 | the first table of `table_order` is overlaid last |
| Merging.FirstTableWins | soupmigration/base.py:246-256 | a field the first-listed table fills gets that table's value (its last matching row) |
| Merging.LastFilling | soupmigration/base.py:249-256 | the last matching row that fills a field exists when any does |
| Merging.NoEmptyOverwrite | soupmigration/base.py:253-255 | a field some row fills is never left empty |
| Merging.Insert | soupmigration/base.py:257 | insertion adds the record, keeping the others |
| Merging.InsertOrdered | soupmigration/base.py:257 | insertion keeps the records ordered |
| Merging.ConsOrdered | soupmigration/base.py:257 | a record no later record is below may head an ordered list |
| Merging.HeadFirst | soupmigration/base.py:257 | no record of an ordered list is below its head |
| Merging.InsertAtFront | soupmigration/base.py:257 | insertion before the head keeps the order |
| Merging.InsertAfterHead | soupmigration/base.py:257 | insertion past the head keeps the order |
| Merging.SortByUnique | soupmigration/base.py:257-258 | the sort is a permutation of the records |
| Merging.SortOrdered | soupmigration/base.py:257-258 | the sort orders the records by unique value |
| Merging.DistinctOnce | soupmigration/base.py:257-258 | a record with a distinct unique value occurs once |
| Merging.TwiceCounted | soupmigration/base.py:257-258 | a record at two positions is counted twice |
| Merging.PermutationDistinct | soupmigration/base.py:257-258 | a permutation keeps the unique values distinct |
| Merging.SortStrict | soupmigration/base.py:257-258 | sorting distinct records gives strictly increasing unique values, the same ones |
| Merging.SameElements | soupmigration/base.py:257-258 | a permutation has the same unique values |
| Merging.LastMissing | soupmigration/base.py:248-250 | the table `self.data[table]` fails on first, walking `table_order` backwards: missing from the data; none when all are present |
| Logs.AffectedList | soupmigration/base.py:510-520 | a non-empty list of affected items: the given list, a scalar wrapped, `'ALL'` when nothing truthy was given |
| Logs.FindMsg | soupmigration/base.py:524-525 | the first entry with the message, or none |
| Logs.AppendNewSpec | soupmigration/base.py:526-528 | the existing affected list is kept as a prefix, gains exactly the new items, and stays duplicate-free |
| Logs.AppendNewLast | soupmigration/base.py:526-528 | one more item is appended iff it is not yet in the list |
| Logs.AppendNewFresh | soupmigration/base.py:526-528 | the result is the old list followed by the new items, each once, in the order first given |
| Logs.AddKeepsUnique | soupmigration/base.py:509-531 | there is at most one entry per message |
| Logs.AddNewMessage | soupmigration/base.py:521-531 | a new message is appended at the end, with its exception if one was given |
| Logs.AddKnownMessage | soupmigration/base.py:524-529 | a repeated message changes only its entry: its affected list becomes the old one followed by the new items in the order given, the exception ignored |
| Logs.AddMessages | soupmigration/base.py:509-531 | the set of logged messages grows by exactly the message |
| Logs.Log.constructor | soupmigration/base.py:506-507 | a new log is empty |
| Logs.Log.Add | soupmigration/base.py:509-531 | `log_messages` becomes the specified entry list, computed by the nested loops |
| Loading.ShowTables | soupmigration/base.py:106-107 | the table names, in database order |
| Loading.Describe | soupmigration/base.py:123-128 | the named table if the database has it; none otherwise |
| Loading.InMapping | soupmigration/base.py:111 | the kept names are exactly those the mapping has |
| Loading.InMappingAppend | soupmigration/base.py:111 | one more table name is kept iff the mapping has it |
| Loading.MappedTablesOnly | soupmigration/base.py:104-111 | with a mapping, only mapped tables that exist are loaded |
| Loading.LoadRowsStops | soupmigration/base.py:131-180 | an error in a row ends the load of the table with that error |
| Loading.LoadTablesStops | soupmigration/base.py:119-180 | an error in a table ends load_data with that error |
| Loading.ZipRows | soupmigration/base.py:133 | one dict per fetched row |
| Loading.LoadWithoutMapping | soupmigration/base.py:131-180 | without a mapping the table's rows are appended as zipped dicts |
| Loading.FullRowLoads | soupmigration/base.py:132-133 | with the equality test, a row with one cell per column loads whatever the width; the identity test rejects widths above 256 |
| Loading.LoadedRowsPassFilter | soupmigration/base.py:168-180 | no loaded row matches data_filter; earlier rows are kept; no message is lost |
| Loading.FilteredRowLogged | soupmigration/base.py:174-179 | a matching row is dropped and logged with its unique value |
| Loading.CollectUnique | soupmigration/base.py:233-235 | the unique values of all rows, or KeyError for a row without the unique field |
| Loading.SeedRecords | soupmigration/base.py:238-244 | one seeded record per non-empty unique value, the unique values distinct |
| Loading.LastMissingAt | soupmigration/base.py:248-250 | the table of the order overlay meets first as missing is the one reported |
| Loading.UniqueValuesFromItems | soupmigration/base.py:238 | `filter(None, unique_items)` is the set of non-empty unique values |
| Loading.OverlayStep | soupmigration/base.py:251-255 | one more row updates the record by its non-empty values iff it has the record's unique value |
| Loading.UpdateMatching | soupmigration/base.py:251-256 | only the record with the row's unique value is updated, by the row's non-empty values |
| Loading.OverlayRows | soupmigration/base.py:251-256 | overlaying one table's rows keeps every record's unique value and extends each record's overlay by those rows |
| Loading.OverlayTables | soupmigration/base.py:246-256 | every record becomes its merged record; KeyError for a table of the order that was not loaded |
| Loading.CleanEach | soupmigration/base.py:191-197 | the loop over a row's items computes the cleaned row |
| Loading.Data.constructor | soupmigration/base.py:89-93 | empty tables, data, merged data and log; the empty values with the four defaults |
| Loading.Data.LoadTableNames | soupmigration/base.py:104-111 | `tables` is every table, or the mapped ones |
| Loading.Data.LoadData | soupmigration/base.py:113-180 | data, mapping and log become those of loading every table in turn, or the first error is returned |
| Loading.Data.LoadFetchedRows | soupmigration/base.py:131-180 | loading the fetched rows one by one reaches the state LoadRows gives, or its first error |
| Loading.LoadRowsStep | soupmigration/base.py:131-180 | one more row: the state after it is LoadRow applied to the state before |
| Loading.LoadTablesStep | soupmigration/base.py:119-180 | one more table: the state after it is LoadTable applied to the state before |
| Loading.Data.LoadOneTable | soupmigration/base.py:119-180 | one table reset and loaded row by row |
| Loading.Data.LoadOneRow | soupmigration/base.py:131-180 | one row checked, zipped, remapped, filtered and appended or logged |
| Loading.Data.Clean | soupmigration/base.py:184-197 | data becomes its cleaned form |
| Loading.Data.GetMappingKeys | soupmigration/base.py:199-205 | AttributeError without a mapping, AssertionError for an empty one, else `value or key` over all table mappings |
| Loading.Data.GetDefaultMapping | soupmigration/base.py:207-216 | AssertionError without data, else each selected non-empty table mapped from its first row's columns to None |
| Loading.Data.TableOrder | soupmigration/base.py:248 | the given `table_order`, or an enumeration of the mapping's tables |
| Loading.SortedMergeResult | soupmigration/base.py:238-258 | sorting the overlaid seeds gives the specified merge result: strictly sorted, one record per non-empty unique value, each its merged record |
| Loading.Data.Merge | soupmigration/base.py:218-258 | the errors in source order; otherwise merged_data is strictly sorted by unique value, one record per non-empty unique value, each the overlay of the reversed table order |
| Loading.Data.Initialize | soupmigration/base.py:99-102 | load, then clean, then merge when a mapping is set |
| Migrations.ToSpec | soupmigration/base.py:331-342 | a non-dict entry raises TypeError, one without `field` KeyError; the key is `key_name or field` |
| Migrations.ValidateAll | soupmigration/base.py:331-334 | every entry read in order, each as ToSpec reads it |
| Migrations.BadM2MRaises | soupmigration/base.py:324-326 | TypeError unless m2m is a list or tuple starting with a dict (IndexError when empty) |
| Migrations.RemoveKeys | soupmigration/base.py:330-334 | keys_to_remove holds every m2m field and every bool_dict key |
| Migrations.RemoveKeysAppend | soupmigration/base.py:331-334 | each entry read adds its field and bool_dict keys |
| Migrations.RemoveMatches | soupmigration/base.py:345-347 | with a `remove` regex and the key present, the key holds `re.sub` of its string, TypeError on a list; otherwise the row is unchanged; no other column changes |
| Migrations.SplitValue | soupmigration/base.py:350-352 | with a `split` regex and the key present, the key holds the list `re.split` gives, TypeError on a list; otherwise the row is unchanged; no other column changes |
| Migrations.AppendListed | soupmigration/base.py:360-363 | the key_list loop changes only the value under the key |
| Migrations.AppendFlags | soupmigration/base.py:367-370 | the bool_dict loop changes only the value under the key |
| Migrations.AppendListedSucceeds | soupmigration/base.py:360-363 | the key_list loop succeeds iff every listed key is present and the value is a list whenever a listed value is truthy |
| Migrations.AppendListedValue | soupmigration/base.py:360-363 | the list under the key gains exactly the truthy listed values, in key_list order |
| Migrations.AppendFlagsSucceeds | soupmigration/base.py:367-370 | the bool_dict loop succeeds iff every flag column is present and the value is a list whenever a flag is truthy |
| Migrations.AppendFlagsValue | soupmigration/base.py:367-370 | the list under the key gains exactly the names of the truthy flag columns, in bool_dict order |
| Migrations.StartRow | soupmigration/base.py:345-355 | remove, split and the default `[]` leave under the key the starting value, and nothing else changes |
| Migrations.ListedStage | soupmigration/base.py:356-363 | the key_list loop, stated over the original row: its success and the values it appends |
| Migrations.FlaggedStage | soupmigration/base.py:364-370 | the bool_dict loop, stated over the original row: its success and the names it appends |
| Migrations.AppendedSucceeds | soupmigration/base.py:356-370 | both loops succeed iff every key read is present and the value is a list whenever something is appended |
| Migrations.AppendedValue | soupmigration/base.py:356-370 | after both loops the value is extended by exactly the truthy key_list values and then the truthy bool_dict names |
| Migrations.StripEach | soupmigration/base.py:376 | the list comprehension with `filter(None, …)`, for any strip function: only non-empty strings are kept; a failure is AttributeError on `strip` |
| Migrations.StripEachFails | soupmigration/base.py:376 | it fails exactly when a list is among the items |
| Migrations.StripEachLast | soupmigration/base.py:376 | the last item, a string, adds its stripped form unless that is empty |
| Migrations.StripEachOnlyItems | soupmigration/base.py:376 | every kept string is the stripped form of some item |
| Migrations.StripEachAllItems | soupmigration/base.py:376 | the stripped form of every item, when non-empty, is kept |
| Migrations.StripAll | soupmigration/base.py:376 | the cleaned list holds stripped non-empty strings; AttributeError otherwise |
| Migrations.StripAllFails | soupmigration/base.py:376 | it fails exactly when a list is among the items |
| Migrations.StripAllKeeps | soupmigration/base.py:376 | it keeps every non-empty stripped item and nothing else |
| Migrations.PrepareField | soupmigration/base.py:341-376 | the key holds the cleaned list, a clean list of strings; no other column changes; the value the key held just before `strip` is returned with it |
| Migrations.PrepareFieldContent | soupmigration/base.py:341-376 | the cleaned list is the stripped non-empty strings of the starting value (a lone string wrapped) followed by the truthy key_list values and truthy bool_dict names; the value before `strip` is the starting list extended by those values, or the lone string; it succeeds exactly when each step does |
| Migrations.AppendListedGrows | soupmigration/base.py:360-363 | a list under the key is only appended to: its old items stay in front |
| Migrations.AppendFlagsGrows | soupmigration/base.py:367-370 | the same for the bool_dict loop |
| Migrations.PreparedGathered | soupmigration/base.py:341-376 | the value before `strip` is a list of strings when it is a list, and a list the row already held under the key is a prefix of it |
| Migrations.OwnerMeaning | soupmigration/base.py:341-378 | after some entries, a key name still holds the very list m2m_dict keeps for a field exactly when an entry with that key name has no later entry with the same key name or the same field; that entry's field is the one named |
| Migrations.OwnerInjective | soupmigration/base.py:341-378 | two key names never hold the list of the same field |
| Migrations.OwnerStep | soupmigration/base.py:341-378 | after one more entry its key name holds its field's list, a key name that held that field's old list holds none, and the others are unchanged |
| Migrations.StoreLists | soupmigration/base.py:360-378 | after an entry its field holds the cleaned list; the field whose list the key name held gets the value before `strip`, since the appends went into that same list; every other list is kept |
| Migrations.PrepareFields | soupmigration/base.py:341-378 | the row gains the key names and keeps every other column; the m2m lists are exactly those of the fields |
| Migrations.PrepareFieldsShares | soupmigration/base.py:341-378 | after the entries, each key name that holds a field's list holds in the row the same list m2m_dict keeps for that field, and that list is clean; every m2m list is a list of strings |
| Migrations.SharesStep | soupmigration/base.py:341-378 | one more entry keeps that sharing |
| Migrations.NextWithKey | soupmigration/base.py:341-378 | the first entry from a position on with a given entry's key name, or none |
| Migrations.PrepareFieldsAt | soupmigration/base.py:341-378 | a field's list is the cleaned list of the last entry naming it, from the row the earlier entries leave; when a later entry has that entry's key name, it is instead the value the first such entry holds before `strip` |
| Migrations.PrepareFieldsSucceeds | soupmigration/base.py:341-378 | a row that gets through all entries gets through each one, applied to the row the earlier ones leave |
| Migrations.StoredUnshared | soupmigration/base.py:341-378 | with no later entry of the same key name, the field ends with the entry's cleaned list |
| Migrations.StoredShared | soupmigration/base.py:341-378 | with one, the field ends with the value the first such entry holds before `strip` |
| Migrations.StepShared | soupmigration/base.py:360-378 | an entry whose key name holds another field's list leaves that field with its value before `strip` |
| Migrations.StepOwn | soupmigration/base.py:376-378 | an entry leaves its own field with its cleaned list |
| Migrations.ListBeforeReuse | soupmigration/base.py:341-378 | up to the next entry with the same key name, the field keeps the cleaned list |
| Migrations.RowBeforeReuse | soupmigration/base.py:341-378 | and the row holds that same list under the key name when that next entry starts |
| Migrations.PrepareFieldsReused | soupmigration/base.py:356-378 | when a later entry reuses the key name, the field's list starts with the cleaned list; unless that entry reads its own key, it is the cleaned list followed by exactly the truthy key_list values and bool_dict names that entry reads, unstripped |
| Migrations.SharedKeyNameExample | soupmigration/base.py:356-378 | entries for a and b with key name k, b reading column x, on the row k='p', x=' q ': a ends with ['p', ' q '] and b with ['p', 'q'] |
| Migrations.PrepareFieldsKept | soupmigration/base.py:341-378 | the entries after the last one that stores into a field's list leave that list as it was |
| Migrations.WrittenAfter | soupmigration/base.py:341-378 | after the last entry with a field, an entry stores into that field's list exactly when it is the first later entry with the same key name |
| Migrations.PrepareFieldsPrefix | soupmigration/base.py:341-378 | a row that gets through all entries gets through every prefix of them |
| Migrations.PrepareFieldsWritesAt | soupmigration/base.py:341-378 | entry i stores into its field's list and into the list its key name holds, and keeps every other list |
| Migrations.PrepareFieldsWrites | soupmigration/base.py:341-378 | the same for every entry, over the lists after each prefix of the entries |
| Migrations.LastWriteWins | soupmigration/base.py:378 | when each step stores some keys and keeps the others, a key holds the value of its last store |
| Migrations.PrepareFieldsStep | soupmigration/base.py:341-378 | one more entry is applied to the row so far and stores as StoreLists says, or stops the row with its error |
| Migrations.PrepareRow | soupmigration/base.py:336-385 | KeyError without the unique field; the new row lacks keys_to_remove; the entry holds the unique value and a list of strings for every field; a field whose list a key name still holds has a clean list, and a kept key name holds that same list in the new row |
| Migrations.PrepareRowAt | soupmigration/base.py:336-385 | the entry's list for a field is the one PrepareFieldsAt describes |
| Migrations.PrepareAll | soupmigration/base.py:336-385 | one new row and one entry per row, each as PrepareRow gives |
| Migrations.EachRow | soupmigration/base.py:336-385 | the loop over `data`, for any per-row step: on success one new row and one entry per row |
| Migrations.EachRowStep | soupmigration/base.py:336-385 | one more row extends the results by the row's, or stops with its error |
| Migrations.EachRowAt | soupmigration/base.py:336-385 | on success the i-th new row and entry are what the step gives for the i-th row |
| Migrations.PrepareAllRows | soupmigration/base.py:336-385 | on success the i-th new row and entry are what PrepareRow gives for the i-th row |
| Migrations.PrepareRows | soupmigration/base.py:336-385 | the loop over `data` computes PrepareAll: the prepared rows and entries, or the first row's error |
| Migrations.PreparedRows | soupmigration/base.py:318-385 | afterwards no row holds an m2m field or bool_dict key; m2m_data gains one entry per row with its unique id and a list of strings per field, clean for a field whose list a key name still holds |
| Migrations.PreparedLists | soupmigration/base.py:318-385 | in the i-th entry, a field holds the list PrepareFieldsAt describes for the i-th row: the last m2m entry naming it cleans it, and the first later entry with the same key name appends to it |
| Migrations.FirstEntryMoved | soupmigration/base.py:318-385 | the first m2m entry's field starts with the stripped non-empty strings of the row's starting value, truthy key_list values and bool_dict names, and holds exactly those when no later entry has its key name |
| Migrations.KeyNameKept | soupmigration/base.py:341-382 | a `key_name` other than the field stays in the row, holding the cleaned list |
| Migrations.ItemExistsMeaning | soupmigration/base.py:394-399 | the answer is whether some row has the same set of values and a different unique value |
| Migrations.FieldValuesSetOnly | soupmigration/base.py:395-396 | the compared values depend only on which fields are named |
| Migrations.ItemExistsFieldOrder | soupmigration/base.py:387-399 | the order of the fields does not matter |
| Migrations.ItemsFrom | soupmigration/base.py:394-399 | the loop's answer does not depend on field order either |
| Migrations.SwappedValuesClash | soupmigration/base.py:395-397 | values swapped between two fields still count as the same item |
| Migrations.Key | soupmigration/base.py:410 | the tuple of the named values, `''` for a missing one |
| Migrations.SeenKeysAppend | soupmigration/base.py:409-414 | a row repeats an earlier one iff its tuple was seen |
| Migrations.ScanSeen | soupmigration/base.py:409-414 | the scan has seen every row's tuple |
| Migrations.ScanDupesMeaning | soupmigration/base.py:409-414 | collected are the unique values of exactly the rows repeating an earlier tuple; a first occurrence never counts for itself |
| Migrations.GetDuplicatesMeaning | soupmigration/base.py:401-415 | the unique field list is non-empty, and the result is the unique values of the repeating rows |
| Migrations.NoRepeatNoDuplicates | soupmigration/base.py:401-415 | with no repeated tuple the result is empty |
| Migrations.NoRepeatScan | soupmigration/base.py:409-414 | with no repeated tuple nothing is collected |
| Migrations.ValidateM2M | soupmigration/base.py:324-334 | the checks and keys_to_remove loop compute the validation and keys_to_remove |
| Migrations.ValidateStops | soupmigration/base.py:331-332 | the first bad entry decides the error |
| Migrations.PrepareFieldOnce | soupmigration/base.py:341-376 | the inner loop body computes PrepareField |
| Migrations.AppendListedOnce | soupmigration/base.py:360-363 | the key_list loop computes AppendListed |
| Migrations.AppendFlagsOnce | soupmigration/base.py:367-370 | the bool_dict loop computes AppendFlags |
| Migrations.AppendListedStops | soupmigration/base.py:361-363 | the first failing key ends the key_list loop |
| Migrations.AppendFlagsStops | soupmigration/base.py:368-370 | the first failing key ends the bool_dict loop |
| Migrations.PrepareRowOnce | soupmigration/base.py:336-382 | the row loop body, which also stores through the list a key name still holds, computes PrepareRow |
| Migrations.RowLoopStep | soupmigration/base.py:341-378 | one pass of that loop keeps its invariant: the lists it updates in place are PrepareFields of one more entry |
| Migrations.NextHolder | soupmigration/base.py:376-378 | after an entry its key name holds its field's list, and no other key name does |
| Migrations.HolderStep | soupmigration/base.py:341-378 | NextHolder keeps matching OwnerMeaning's owner after one more entry |
| Migrations.PrepareFieldsStops | soupmigration/base.py:341-378 | the first failing entry ends the row |
| Migrations.EachRowStops | soupmigration/base.py:336-385 | the first failing row ends the loop over `data`: later rows do not change the outcome |
| Migrations.ScanStops | soupmigration/base.py:409-414 | the first failing row ends get_duplicates |
| Migrations.Migration.constructor | soupmigration/base.py:289-299 | a migration with the subclass's data, unique field and m2m, the given regex engine, and empty m2m_data |
| Migrations.Migration.PrepareM2M | soupmigration/base.py:318-385 | data becomes the prepared rows and m2m_data gains their entries, or the error is returned |
| Migrations.Migration.ItemExists | soupmigration/base.py:387-399 | the loop computes item_exists, AssertionError for no fields |
| Migrations.Migration.GetDuplicates | soupmigration/base.py:401-415 | the loop computes get_duplicates, AssertionError for no fields |

## Left out

- MySQL access: `MySQLdb.connect`, the settings and keyword arguments for it, and the cursor. The answers to SHOW TABLES, DESCRIBE and SELECT are a `Database` value.
- Every `print`: the warnings about unknown keyword arguments, "Loaded table", "Log(...)".
- Django: `get_model`, `fk_to_model`, `insert`, `m2m_insert` and the queryset lookups. These are calls into the ORM. `insert` also calls `prepare_m2m_strings`, which is not part of this model.
- `Log.msg_repr`, `Log.print_all` and `Log.save_as_json`: text, console and JSON output.
- The `remove`/`split` regexes of `prepare_m2m` are not interpreted. `RegexEngine` stands for what `re.sub` and `re.split` do with them.
- Python hash order:
  - Columns are renamed in column order; this only matters when two columns are renamed to the same target.
  - `data_filter` matches are listed in the filter's order.
  - The default `table_order` is any enumeration of the mapping's tables.
  - Tables and row items are visited in any order where the result does not depend on it.
- `unicode()` of driver objects other than strings, NULL and integers: such a cell carries its rendering and truth value.
- `empty_values` is a class attribute that grows by `+=` with every instance. The model uses a fixed set: the configured values plus the four defaults. `None` in that list can never match, because the value has already been converted to a string.
- `hasattr(self, 'mapping')` is modelled as `mapping` being present. A mapping attribute set to None is not distinguished from one that is absent.
- `load_table_names` asserts that the mapping is a dict; in the model it always is.
- The state left behind by an exception is not specified; the methods return the error. In Python, rows and `merged_data` are partly updated at that point.
- Migrations.AppendListed: its own contract states only the frame; what it appends and when it fails is stated by Migrations.AppendListedSucceeds and Migrations.AppendListedValue.
- Migrations.AppendFlags: its own contract states only the frame; what it appends and when it fails is stated by Migrations.AppendFlagsSucceeds and Migrations.AppendFlagsValue.
- Migrations.PrepareField: its own contract states the shape of the result; the contents of the cleaned list are stated by Migrations.PrepareFieldContent.
- Migrations.PrepareFields: its own contract states the shape of the result; the list under each field is stated by Migrations.PrepareFieldsAt.
- Migrations.PrepareRow: its own contract states the shape of the result and which lists are clean; the exact list under each field is stated by Migrations.PrepareRowAt.
- Migrations.PrepareRow: lists in the input rows are values. A list object that Python shares within a row before `prepare_m2m`, or a unique value that is itself a list which an m2m entry then appends to, is not modelled as shared; only the sharing that `prepare_m2m` itself creates through a key name is.
- Migrations.PrepareFieldContent: requires that neither key_list nor bool_dict names the entry's own key, so the values it reads are those of the original row. A key_list naming the own key appends the list to itself in Python, an aliasing effect; the model appends a copy, and `strip` then raises AttributeError in both. A bool_dict naming the own key tests the list being built; PrepareField models that as Python does, but the lemma does not describe it.
- Migrations.PreparedLists: states the list in terms of PrepareField on the row the earlier entries leave; Migrations.FirstEntryMoved spells out the contents for the first entry only, and later entries read a row in which earlier keys already hold lists.
- Migrations.FirstEntryMoved: when a later entry reuses the first entry's key name, it states only that the list begins with the cleaned values; Migrations.PrepareFieldsReused states what that later entry appends.
- Migrations.Migration.PrepareM2M: `data` is replaced once all rows are prepared, not row by row. The two differ only when an exception stops the loop, and the state is then not specified.
- Loading.Data.LoadOneRow: uses the corrected `==` arity test (see Findings); a table of more than 256 columns loads here but raises AssertionError in the program.
- Loading.Data.Merge: requires that `clean` has run, so every value is text, as `__init__` guarantees. Merging raw driver values is not modelled.
- Loading.Data.Merge: on KeyError for a table of `table_order` that was not loaded, `merged_data` is not specified. Python leaves the seeded, partly overlaid records.
- Migrations.Migration.constructor: `model`, `delete_existing`, `fk` and the migration's `log` are not modelled; only `insert` uses them.
- Row values of a migration are strings and lists. Tuples, sets and other objects are not modelled.
- Exceptions the interpreter raises carry a short description rather than the interpreter's exact text.
- Strings are sequences of code points. `strip` uses the Unicode whitespace characters listed in `Values.IsSpace`.

## Findings

| source | as written | input that shows it | evidently intended | confidence | as-written member | corrected member |
|---|---|---|---|---|---|---|
| soupmigration/base.py:132 | `assert len(keys) is len(row)` compares the two lengths by object identity; CPython shares int objects only up to 256 | a table with 257 columns, whose rows have 257 cells | `len(keys) == len(row)`: every row that fits its columns is loaded | not executed | Tables.WideRowRejected | Loading.FullRowLoads |
