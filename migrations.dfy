/**
 * Migration (soupmigration/base.py): the record post-processing done before
 * insertion. prepare_m2m moves the many-to-many fields of every row into
 * `m2m_data` as cleaned lists of strings; item_exists and get_duplicates
 * look for rows that clash on a list of fields.
 */
module Migrations {
  import opened Wrappers
  import opened Values

  /** A value of a row of `Migration.data`: a string, or a list built by prepare_m2m. */
  datatype Value = Str(s: string) | List(items: seq<Value>)

  /** One row of `Migration.data`. */
  type Row = map<string, Value>

  /** Python's truth value of a row value. */
  predicate IsTrue(v: Value)
  {
    match v
    case Str(s) => s != ""
    case List(items) => items != []
  }

  /** `dic.get(key, '')` */
  function Get(dic: Row, key: string): Value
  {
    if key in dic then dic[key] else Str("")
  }

  /**
   * The user's regular expressions, which the model does not interpret:
   * `re.sub(pattern, '', s)` and `re.split(pattern, s)`.
   */
  datatype RegexEngine = RegexEngine(sub: (string, string) -> string, split: (string, string) -> seq<string>)

  // ----- The m2m configuration -----

  /**
   * One entry of `m2m`: a dict with its optional keys (`field` absent as
   * None; `key_name`, `remove` and `split` absent or falsy as ""; `key_list`
   * absent as []; `bool_dict` absent as None, its items in iteration
   * order), or anything that is not a dict.
   */
  datatype M2MEntry =
    | Dict(field: Option<string>, keyName: string, remove: string, split: string,
           keyList: seq<string>, boolDict: Option<seq<(string, string)>>)
    | NotDict

  /** `m2m` itself: a list or tuple of entries, a set, or something else. */
  datatype M2MArg = Sequence(entries: seq<M2MEntry>) | SetOf | NotCollection

  /** An entry once its `field` is known: `key` is `key_name or field`, `flags` the bool_dict items. */
  datatype M2MSpec = M2MSpec(field: string, key: string, remove: string, split: string,
                             keyList: seq<string>, flags: seq<(string, string)>)

  const M2M_TYPE: string := "`m2m` needs to be a list of dictionaries."

  /** An entry as the loop computing keys_to_remove reads it. */
  function ToSpec(e: M2MEntry): (r: Result<M2MSpec, Error>)
    ensures e.NotDict? ==> r.Failure? && r.error.TypeError?
    ensures e.Dict? && e.field.None? ==> r == Failure(KeyError("field"))
    ensures r.Success? ==> e.Dict? && e.field == Some(r.value.field)
    ensures r.Success? ==> r.value.key == if e.keyName != "" then e.keyName else r.value.field
  {
    match e
    case NotDict => Failure(TypeError("m2m entry is not a dict"))
    case Dict(field, keyName, remove, split, keyList, boolDict) =>
      if field.None? then Failure(KeyError("field"))
      else
        var flags := if boolDict.Some? then boolDict.value else [];
        Success(M2MSpec(field.value, if keyName != "" then keyName else field.value, remove, split, keyList, flags))
  }

  /** The entries read in order; the first that fails stops the loop. */
  function ValidateAll(entries: seq<M2MEntry>): (r: Result<seq<M2MSpec>, Error>)
    ensures r.Success? ==> |r.value| == |entries| && forall i :: 0 <= i < |entries| ==> ToSpec(entries[i]) == Success(r.value[i])
  {
    if entries == [] then Success([])
    else
      var prev :- ValidateAll(entries[..|entries| - 1]);
      var spec :- ToSpec(entries[|entries| - 1]);
      Success(prev + [spec])
  }

  /**
   * The check at the top of prepare_m2m and the keys_to_remove loop:
   * TypeError unless `m2m` is a list or tuple whose first entry is a dict
   * (a set cannot be indexed, an empty list raises IndexError), then
   * TypeError or KeyError('field') for the first entry that is not a dict
   * or has no `field`.
   */
  function Validate(m2m: M2MArg): (r: Result<seq<M2MSpec>, Error>)
  {
    match m2m
    case NotCollection => Failure(TypeError(M2M_TYPE))
    case SetOf => Failure(TypeError("'set' object does not support indexing"))
    case Sequence(entries) =>
      if entries == [] then Failure(IndexError("list index out of range"))
      else if entries[0].NotDict? then Failure(TypeError(M2M_TYPE))
      else ValidateAll(entries)
  }

  /** prepare_m2m raises TypeError for anything but a non-empty list or tuple that starts with a dict. */
  lemma BadM2MRaises(m2m: M2MArg)
    ensures m2m.NotCollection? || m2m.SetOf? || (m2m.Sequence? && m2m.entries != [] && m2m.entries[0].NotDict?)
            ==> Validate(m2m).Failure? && Validate(m2m).error.TypeError?
    ensures m2m.Sequence? && m2m.entries == [] ==> Validate(m2m).Failure? && Validate(m2m).error.IndexError?
    ensures Validate(m2m).Success? ==> m2m.Sequence? && |Validate(m2m).value| == |m2m.entries| > 0
  {
  }

  /** The m2m fields. */
  function Fields(specs: seq<M2MSpec>): set<string>
  {
    set i | 0 <= i < |specs| :: specs[i].field
  }

  /** The keys prepare_m2m works on in each row: `key_name or field`. */
  function KeyNames(specs: seq<M2MSpec>): set<string>
  {
    set i | 0 <= i < |specs| :: specs[i].key
  }

  /** The bool_dict keys of one entry. */
  function FlagKeys(spec: M2MSpec): set<string>
  {
    set j | 0 <= j < |spec.flags| :: spec.flags[j].0
  }

  /** keys_to_remove: every m2m field and every bool_dict key. */
  function RemoveKeys(specs: seq<M2MSpec>): (r: set<string>)
    ensures Fields(specs) <= r
    ensures forall i, j :: 0 <= i < |specs| && 0 <= j < |specs[i].flags| ==> specs[i].flags[j].0 in r
  {
    Fields(specs) + set i, j | 0 <= i < |specs| && 0 <= j < |specs[i].flags| :: specs[i].flags[j].0
  }

  /** keys_to_remove grows by the field and the bool_dict keys of each entry read. */
  lemma RemoveKeysAppend(specs: seq<M2MSpec>, spec: M2MSpec)
    ensures RemoveKeys(specs + [spec]) == RemoveKeys(specs) + {spec.field} + FlagKeys(spec)
  {
    var all := specs + [spec];
    var n := |specs|;
    assert forall i :: 0 <= i < n ==> all[i] == specs[i];
    assert all[n] == spec;
    forall f | f in Fields(all) ensures f in Fields(specs) + {spec.field} {
      var i :| 0 <= i < |all| && all[i].field == f;
      if i < n {
        assert specs[i].field == f;
      }
    }
    forall f | f in Fields(specs) ensures f in Fields(all) {
      var i :| 0 <= i < n && specs[i].field == f;
      assert all[i].field == f;
    }
    assert spec.field in Fields(all);
    forall k | k in FlagKeys(spec) ensures k in RemoveKeys(all) {
      var j :| 0 <= j < |spec.flags| && spec.flags[j].0 == k;
      assert all[n].flags[j].0 == k;
    }
  }

  // ----- One row -----

  /** A list of strings as row values. */
  function Strs(ss: seq<string>): (r: seq<Value>)
    ensures |r| == |ss| && forall i :: 0 <= i < |ss| ==> r[i] == Str(ss[i])
  {
    seq(|ss|, i requires 0 <= i < |ss| => Str(ss[i]))
  }

  /** A list of stripped, non-empty strings: what prepare_m2m leaves for every m2m field. */
  predicate CleanList(v: Value)
  {
    v.List? && forall i :: 0 <= i < |v.items| ==> v.items[i].Str? && v.items[i].s != "" && IsStripped(v.items[i].s)
  }

  /** `re.sub(regex, '', dic.get(key, ''))` when a `remove` regex is given and the key is present. */
  function RemoveMatches(dic: Row, key: string, pattern: string, re: RegexEngine): (r: Result<Row, Error>)
    ensures r.Success? ==> r.value.Keys == dic.Keys && forall k :: k in dic && k != key ==> r.value[k] == dic[k]
    ensures r.Failure? <==> pattern != "" && key in dic && dic[key].List?
    ensures r.Failure? ==> r.error == TypeError("expected string or buffer")
    ensures r.Success? && pattern != "" && key in dic ==> r.value[key] == Str(re.sub(pattern, dic[key].s))
    ensures pattern == "" || key !in dic ==> r == Success(dic)
  {
    if pattern == "" || key !in dic then Success(dic)
    else match dic[key]
      case Str(s) => Success(dic[key := Str(re.sub(pattern, s))])
      case List(_) => Failure(TypeError("expected string or buffer"))
  }

  /** `re.split(regex, dic.get(key, ''))` when a `split` regex is given and the key is present. */
  function SplitValue(dic: Row, key: string, pattern: string, re: RegexEngine): (r: Result<Row, Error>)
    ensures r.Success? ==> r.value.Keys == dic.Keys && forall k :: k in dic && k != key ==> r.value[k] == dic[k]
    ensures r.Failure? <==> pattern != "" && key in dic && dic[key].List?
    ensures r.Failure? ==> r.error == TypeError("expected string or buffer")
    ensures r.Success? && pattern != "" && key in dic ==> r.value[key] == List(Strs(re.split(pattern, dic[key].s)))
    ensures pattern == "" || key !in dic ==> r == Success(dic)
  {
    if pattern == "" || key !in dic then Success(dic)
    else match dic[key]
      case Str(s) => Success(dic[key := List(Strs(re.split(pattern, s)))])
      case List(_) => Failure(TypeError("expected string or buffer"))
  }

  /**
   * The key_list loop: the value of each listed key that is truthy is
   * appended to the list under `key`; a missing listed key raises KeyError,
   * appending to a string AttributeError.
   */
  function AppendListed(dic: Row, key: string, sources: seq<string>): (r: Result<Row, Error>)
    requires key in dic
    ensures r.Success? ==> r.value.Keys == dic.Keys && forall k :: k in dic && k != key ==> r.value[k] == dic[k]
  {
    if sources == [] then Success(dic)
    else
      var d :- AppendListed(dic, key, sources[..|sources| - 1]);
      var k := sources[|sources| - 1];
      if k !in d then Failure(KeyError(k))
      else if !IsTrue(d[k]) then Success(d)
      else if d[key].Str? then Failure(AttributeError("append"))
      else Success(d[key := List(d[key].items + [d[k]])])
  }

  /** The bool_dict loop: the name given for each truthy flag column is appended to the list under `key`. */
  function AppendFlags(dic: Row, key: string, flags: seq<(string, string)>): (r: Result<Row, Error>)
    requires key in dic
    ensures r.Success? ==> r.value.Keys == dic.Keys && forall k :: k in dic && k != key ==> r.value[k] == dic[k]
  {
    if flags == [] then Success(dic)
    else
      var d :- AppendFlags(dic, key, flags[..|flags| - 1]);
      var (k, name) := flags[|flags| - 1];
      if k !in d then Failure(KeyError(k))
      else if !IsTrue(d[k]) then Success(d)
      else if d[key].Str? then Failure(AttributeError("append"))
      else Success(d[key := List(d[key].items + [Str(name)])])
  }

  /** The truthy values of the listed keys that the row holds, in key_list order. */
  function Listed(dic: Row, sources: seq<string>): seq<Value>
  {
    if sources == [] then []
    else
      var k := sources[|sources| - 1];
      Listed(dic, sources[..|sources| - 1]) + if k in dic && IsTrue(dic[k]) then [dic[k]] else []
  }

  /** The names given for the truthy bool_dict columns that the row holds, in bool_dict order. */
  function Flagged(dic: Row, flags: seq<(string, string)>): seq<Value>
  {
    if flags == [] then []
    else
      var k := flags[|flags| - 1];
      Flagged(dic, flags[..|flags| - 1]) + if k.0 in dic && IsTrue(dic[k.0]) then [Str(k.1)] else []
  }

  /** Two rows that agree everywhere but at `key`. */
  ghost predicate AgreeBut(a: Row, b: Row, key: string)
  {
    (forall k :: k != key ==> (k in a <==> k in b)) && forall k :: k in a && k != key ==> a[k] == b[k]
  }

  lemma {:induction false} ListedAgree(a: Row, b: Row, key: string, sources: seq<string>)
    requires AgreeBut(a, b, key) && key !in sources
    ensures Listed(a, sources) == Listed(b, sources)
    decreases |sources|
  {
    if sources != [] {
      ListedAgree(a, b, key, sources[..|sources| - 1]);
    }
  }

  lemma {:induction false} FlaggedAgree(a: Row, b: Row, key: string, flags: seq<(string, string)>)
    requires AgreeBut(a, b, key) && forall j :: 0 <= j < |flags| ==> flags[j].0 != key
    ensures Flagged(a, flags) == Flagged(b, flags)
    decreases |flags|
  {
    if flags != [] {
      var init := flags[..|flags| - 1];
      assert forall j :: 0 <= j < |init| ==> init[j].0 != key;
      FlaggedAgree(a, b, key, init);
    }
  }

  /** Every key of `sources` is in the row. */
  predicate AllIn(dic: Row, sources: seq<string>)
  {
    forall i :: 0 <= i < |sources| ==> sources[i] in dic
  }

  lemma AllInLast(dic: Row, sources: seq<string>)
    requires sources != []
    ensures AllIn(dic, sources) <==> AllIn(dic, sources[..|sources| - 1]) && sources[|sources| - 1] in dic
  {
    var n := |sources| - 1;
    if AllIn(dic, sources[..n]) && sources[n] in dic {
      forall i | 0 <= i < |sources| ensures sources[i] in dic {
        if i < n { assert sources[..n][i] == sources[i]; }
      }
    }
  }

  /**
   * The key_list loop, when key_list does not name the key itself,
   * succeeds iff every listed key is present and, should any of them be
   * truthy, the key holds a list.
   */
  lemma {:induction false} AppendListedSucceeds(dic: Row, key: string, sources: seq<string>)
    requires key in dic && key !in sources
    ensures AppendListed(dic, key, sources).Success? <==>
            AllIn(dic, sources) && (dic[key].List? || Listed(dic, sources) == [])
    decreases |sources|
  {
    if sources != [] {
      var n := |sources| - 1;
      var init, k := sources[..n], sources[n];
      assert key !in init;
      AppendListedSucceeds(dic, key, init);
      AppendListedValue(dic, key, init);
      AllInLast(dic, sources);
    }
  }

  /** The list under the key gains exactly the truthy listed values, in key_list order. */
  lemma {:induction false} AppendListedValue(dic: Row, key: string, sources: seq<string>)
    requires key in dic && key !in sources
    ensures AppendListed(dic, key, sources).Success? ==> dic[key].List? || Listed(dic, sources) == []
    ensures AppendListed(dic, key, sources).Success? && Listed(dic, sources) == [] ==>
            AppendListed(dic, key, sources).value[key] == dic[key]
    ensures AppendListed(dic, key, sources).Success? && dic[key].List? ==>
            AppendListed(dic, key, sources).value[key] == List(dic[key].items + Listed(dic, sources))
    decreases |sources|
  {
    if sources != [] && AppendListed(dic, key, sources).Success? {
      var n := |sources| - 1;
      var init, k := sources[..n], sources[n];
      assert key !in init;
      AppendListedValue(dic, key, init);
      var d := AppendListed(dic, key, init).value;
      assert k != key && k in d && d[k] == dic[k];
      var prev := Listed(dic, init);
      if dic[key].List? {
        assert d[key] == List(dic[key].items + prev);
        if IsTrue(dic[k]) {
          assert (dic[key].items + prev) + [dic[k]] == dic[key].items + (prev + [dic[k]]);
        } else {
          assert prev + [] == prev;
        }
      }
    }
  }

  /** The bool_dict keys are all in the row. */
  predicate FlagsIn(dic: Row, flags: seq<(string, string)>)
  {
    forall j :: 0 <= j < |flags| ==> flags[j].0 in dic
  }

  lemma FlagsInLast(dic: Row, flags: seq<(string, string)>)
    requires flags != []
    ensures FlagsIn(dic, flags) <==> FlagsIn(dic, flags[..|flags| - 1]) && flags[|flags| - 1].0 in dic
  {
    var n := |flags| - 1;
    if FlagsIn(dic, flags[..n]) && flags[n].0 in dic {
      forall j | 0 <= j < |flags| ensures flags[j].0 in dic {
        if j < n { assert flags[..n][j] == flags[j]; }
      }
    }
  }

  /**
   * The bool_dict loop, when no bool_dict key is the key itself, succeeds
   * iff every bool_dict key is present and, should any of them be truthy,
   * the key holds a list.
   */
  lemma {:induction false} AppendFlagsSucceeds(dic: Row, key: string, flags: seq<(string, string)>)
    requires key in dic && forall j :: 0 <= j < |flags| ==> flags[j].0 != key
    ensures AppendFlags(dic, key, flags).Success? <==>
            FlagsIn(dic, flags) && (dic[key].List? || Flagged(dic, flags) == [])
    decreases |flags|
  {
    if flags != [] {
      var n := |flags| - 1;
      var init := flags[..n];
      assert forall j :: 0 <= j < |init| ==> init[j].0 != key;
      AppendFlagsSucceeds(dic, key, init);
      AppendFlagsValue(dic, key, init);
      FlagsInLast(dic, flags);
    }
  }

  /** The list under the key gains exactly the names of the truthy columns, in bool_dict order. */
  lemma {:induction false} AppendFlagsValue(dic: Row, key: string, flags: seq<(string, string)>)
    requires key in dic && forall j :: 0 <= j < |flags| ==> flags[j].0 != key
    ensures AppendFlags(dic, key, flags).Success? ==> dic[key].List? || Flagged(dic, flags) == []
    ensures AppendFlags(dic, key, flags).Success? && Flagged(dic, flags) == [] ==>
            AppendFlags(dic, key, flags).value[key] == dic[key]
    ensures AppendFlags(dic, key, flags).Success? && dic[key].List? ==>
            AppendFlags(dic, key, flags).value[key] == List(dic[key].items + Flagged(dic, flags))
    decreases |flags|
  {
    if flags != [] && AppendFlags(dic, key, flags).Success? {
      var n := |flags| - 1;
      var init, k := flags[..n], flags[n];
      assert forall j :: 0 <= j < |init| ==> init[j].0 != key;
      AppendFlagsValue(dic, key, init);
      var d := AppendFlags(dic, key, init).value;
      assert k.0 != key && k.0 in d && d[k.0] == dic[k.0];
      var prev := Flagged(dic, init);
      if dic[key].List? {
        assert d[key] == List(dic[key].items + prev);
        if IsTrue(dic[k.0]) {
          assert (dic[key].items + prev) + [Str(k.1)] == dic[key].items + (prev + [Str(k.1)]);
        } else {
          assert prev + [] == prev;
        }
      }
    }
  }

  /** `filter(None, [strip(val) for val in items])`; a list among the items has no strip. */
  function StripEach(items: seq<Value>, strip: string -> string): (r: Result<seq<string>, Error>)
    ensures r.Success? ==> forall i :: 0 <= i < |r.value| ==> r.value[i] != ""
    ensures r.Failure? ==> r.error == AttributeError("strip")
  {
    if items == [] then Success([])
    else
      var prev :- StripEach(items[..|items| - 1], strip);
      match items[|items| - 1]
      case Str(s) => var t := strip(s); Success(prev + if t == "" then [] else [t])
      case List(_) => Failure(AttributeError("strip"))
  }

  /** An item that `strip` turns into the non-empty string t. */
  predicate StripsTo(v: Value, t: string, strip: string -> string)
  {
    v.Str? && strip(v.s) == t && t != ""
  }

  /** Some item is a list. */
  predicate HasList(items: seq<Value>)
  {
    exists i :: 0 <= i < |items| && items[i].List?
  }

  lemma HasListLast(items: seq<Value>)
    requires items != []
    ensures HasList(items) <==> HasList(items[..|items| - 1]) || items[|items| - 1].List?
  {
    var n := |items| - 1;
    if HasList(items) {
      var i :| 0 <= i < |items| && items[i].List?;
      if i < n {
        assert items[..n][i].List?;
      }
    }
    if HasList(items[..n]) {
      var i :| 0 <= i < n && items[..n][i].List?;
      assert items[i].List?;
    }
  }

  /** StripEach fails exactly when a list is among the items. */
  lemma {:induction false} StripEachFails(items: seq<Value>, strip: string -> string)
    ensures StripEach(items, strip).Failure? <==> HasList(items)
  {
    if items != [] {
      StripEachFails(items[..|items| - 1], strip);
      HasListLast(items);
    }
  }

  /** A successful StripEach extends the result for all but the last item by the last item's stripped string. */
  lemma StripEachLast(items: seq<Value>, strip: string -> string)
    requires items != [] && StripEach(items, strip).Success?
    ensures StripEach(items[..|items| - 1], strip).Success? && items[|items| - 1].Str?
    ensures var last := strip(items[|items| - 1].s);
      StripEach(items, strip).value == StripEach(items[..|items| - 1], strip).value + if last == "" then [] else [last]
  {
  }

  /** Every string StripEach keeps comes from an item. */
  lemma {:induction false} StripEachOnlyItems(items: seq<Value>, strip: string -> string)
    requires StripEach(items, strip).Success?
    ensures forall t :: t in StripEach(items, strip).value ==> exists i :: 0 <= i < |items| && StripsTo(items[i], t, strip)
  {
    if items != [] {
      var n := |items| - 1;
      var init := items[..n];
      StripEachLast(items, strip);
      StripEachOnlyItems(init, strip);
      var prev := StripEach(init, strip).value;
      forall t | t in StripEach(items, strip).value ensures exists i :: 0 <= i < |items| && StripsTo(items[i], t, strip) {
        if t in prev {
          var i :| 0 <= i < |init| && StripsTo(init[i], t, strip);
          assert items[i] == init[i];
        } else {
          assert StripsTo(items[n], t, strip);
        }
      }
    }
  }

  /** Every item that strips to a non-empty string is kept. */
  lemma {:induction false} StripEachAllItems(items: seq<Value>, strip: string -> string)
    requires StripEach(items, strip).Success?
    ensures forall i, t :: 0 <= i < |items| && StripsTo(items[i], t, strip) ==> t in StripEach(items, strip).value
  {
    if items != [] {
      var n := |items| - 1;
      var init := items[..n];
      StripEachLast(items, strip);
      StripEachAllItems(init, strip);
      forall i, t | 0 <= i < n && StripsTo(items[i], t, strip) ensures t in StripEach(items, strip).value {
        assert StripsTo(init[i], t, strip);
      }
    }
  }

  /** `filter(None, [val.strip() for val in items])` with unicode.strip(). */
  function StripAll(items: seq<Value>): (r: Result<seq<string>, Error>)
    ensures r.Success? ==> forall i :: 0 <= i < |r.value| ==> r.value[i] != "" && IsStripped(r.value[i])
    ensures r.Failure? ==> r.error == AttributeError("strip")
  {
    var r := StripEach(items, Strip);
    if r.Failure? then r
    else
      StripEachOnlyItems(items, Strip);
      assert forall i :: 0 <= i < |r.value| ==> r.value[i] in r.value;
      r
  }

  /** StripAll fails exactly when a list is among the items. */
  lemma StripAllFails(items: seq<Value>)
    ensures StripAll(items).Failure? <==> HasList(items)
  {
    StripEachFails(items, Strip);
  }

  /** StripAll keeps every stripped item that is not empty, and nothing else. */
  lemma StripAllKeeps(items: seq<Value>)
    requires StripAll(items).Success?
    ensures forall t :: t in StripAll(items).value <==>
      exists i :: 0 <= i < |items| && items[i].Str? && Strip(items[i].s) == t && t != ""
  {
    StripEachOnlyItems(items, Strip);
    StripEachAllItems(items, Strip);
  }

  /** What one entry leaves: the row, the value under the key just before `strip`, and the cleaned strings. */
  datatype Prepared = Prepared(row: Row, gathered: Value, cleaned: seq<string>)

  /**
   * The body of prepare_m2m's inner loop for one entry: the value under
   * `key_name or field` run through `remove` and `split`, created as [] when
   * missing, extended by key_list and bool_dict, wrapped in a list, and
   * stripped with its empty strings dropped. The row gets the cleaned list.
   */
  function PrepareField(dic: Row, spec: M2MSpec, re: RegexEngine): (r: Result<Prepared, Error>)
    ensures r.Success? ==> r.value.row.Keys == dic.Keys + {spec.key}
    ensures r.Success? ==> r.value.row[spec.key] == List(Strs(r.value.cleaned)) && CleanList(r.value.row[spec.key])
    ensures r.Success? ==> forall k :: k in dic && k != spec.key ==> r.value.row[k] == dic[k]
  {
    var d1 :- RemoveMatches(dic, spec.key, spec.remove, re);
    var d2 :- SplitValue(d1, spec.key, spec.split, re);
    var d3 := if spec.key in d2 then d2 else d2[spec.key := List([])];
    var d4 :- AppendListed(d3, spec.key, spec.keyList);
    var d5 :- AppendFlags(d4, spec.key, spec.flags);
    var items := if d5[spec.key].List? then d5[spec.key].items else [d5[spec.key]];
    var cleaned :- StripAll(items);
    Success(Prepared(d5[spec.key := List(Strs(cleaned))], d5[spec.key], cleaned))
  }

  /** The value under the key once `remove` and `split` have run on it; [] when the row lacks the key. */
  function Start(dic: Row, spec: M2MSpec, re: RegexEngine): Result<Value, Error>
  {
    if spec.key !in dic then Success(List([]))
    else
      var v := dic[spec.key];
      var removed :- if spec.remove == "" then Success(v)
                     else if v.Str? then Success(Str(re.sub(spec.remove, v.s)))
                     else Failure(TypeError("expected string or buffer"));
      if spec.split == "" then Success(removed)
      else if removed.Str? then Success(List(Strs(re.split(spec.split, removed.s))))
      else Failure(TypeError("expected string or buffer"))
  }

  /** What the entry reads through key_list and bool_dict: the truthy listed values, then the names of the truthy flags. */
  function Extra(dic: Row, spec: M2MSpec): seq<Value>
  {
    Listed(dic, spec.keyList) + Flagged(dic, spec.flags)
  }

  /** The items stripped at the end: the list with the extra values appended, or a lone string. */
  function Gathered(v: Value, extra: seq<Value>): seq<Value>
  {
    if v.List? then v.items + extra else [v]
  }

  /** key_list and bool_dict do not name the entry's own key. */
  predicate NoSelfReference(spec: M2MSpec)
  {
    spec.key !in spec.keyList && forall j :: 0 <= j < |spec.flags| ==> spec.flags[j].0 != spec.key
  }

  /** Every key read through key_list and bool_dict is in the row. */
  predicate ReadsPresent(dic: Row, spec: M2MSpec)
  {
    AllIn(dic, spec.keyList) && FlagsIn(dic, spec.flags)
  }

  /**
   * What one entry moves, read off the row as given: the entry succeeds iff
   * remove/split succeed, every key it reads is present, the value is a list
   * whenever something is appended, and no item is a nested list; the
   * cleaned list is then the stripped, non-empty strings of the value (a
   * lone string wrapped) followed by the truthy key_list values and the
   * names of the truthy bool_dict columns. Before `strip` the list under the
   * key is the starting list with those values appended.
   */
  lemma PrepareFieldContent(dic: Row, spec: M2MSpec, re: RegexEngine)
    requires NoSelfReference(spec)
    ensures PrepareField(dic, spec, re).Success? <==>
            && Start(dic, spec, re).Success? && ReadsPresent(dic, spec)
            && (Start(dic, spec, re).value.List? || Extra(dic, spec) == [])
            && StripAll(Gathered(Start(dic, spec, re).value, Extra(dic, spec))).Success?
    ensures PrepareField(dic, spec, re).Success? ==>
            PrepareField(dic, spec, re).value.cleaned == StripAll(Gathered(Start(dic, spec, re).value, Extra(dic, spec))).value
    ensures PrepareField(dic, spec, re).Success? ==>
            PrepareField(dic, spec, re).value.gathered ==
              if Start(dic, spec, re).value.List? then List(Start(dic, spec, re).value.items + Extra(dic, spec))
              else Start(dic, spec, re).value
  {
    var key := spec.key;
    StartRow(dic, spec, re);
    var r1 := RemoveMatches(dic, key, spec.remove, re);
    if r1.Failure? || SplitValue(r1.value, key, spec.split, re).Failure? {
      return;
    }
    var d2 := SplitValue(r1.value, key, spec.split, re).value;
    var d3 := if key in d2 then d2 else d2[key := List([])];
    var v := Start(dic, spec, re).value;
    assert d3[key] == v && AgreeBut(d3, dic, key);
    AppendedSucceeds(d3, dic, spec);
    AppendedValue(d3, dic, spec);
    var r4 := AppendListed(d3, key, spec.keyList);
    if r4.Failure? || AppendFlags(r4.value, key, spec.flags).Failure? {
      return;
    }
    var d5 := AppendFlags(r4.value, key, spec.flags).value;
    var items := if d5[key].List? then d5[key].items else [d5[key]];
    assert items == Gathered(v, Extra(dic, spec)) by {
      if v.List? && Extra(dic, spec) == [] {
        assert v.items + [] == v.items;
      }
    }
  }

  /** remove and split on the row agree with Start, and touch nothing but the key. */
  lemma StartRow(dic: Row, spec: M2MSpec, re: RegexEngine)
    ensures var r1 := RemoveMatches(dic, spec.key, spec.remove, re);
            (r1.Success? && SplitValue(r1.value, spec.key, spec.split, re).Success?) <==> Start(dic, spec, re).Success?
    ensures var r1 := RemoveMatches(dic, spec.key, spec.remove, re);
            r1.Success? && SplitValue(r1.value, spec.key, spec.split, re).Success? ==>
              var d2 := SplitValue(r1.value, spec.key, spec.split, re).value;
              && AgreeBut(d2, dic, spec.key) && (spec.key in d2 <==> spec.key in dic)
              && (spec.key in d2 ==> d2[spec.key] == Start(dic, spec, re).value)
              && (spec.key !in d2 ==> Start(dic, spec, re).value == List([]))
  {
  }

  /** The key_list loop on a row that agrees with `dic` but at the key, stated over `dic`. */
  lemma ListedStage(d3: Row, dic: Row, spec: M2MSpec)
    requires spec.key in d3 && AgreeBut(d3, dic, spec.key) && spec.key !in spec.keyList
    ensures var r4 := AppendListed(d3, spec.key, spec.keyList);
            r4.Success? <==>
              AllIn(dic, spec.keyList) && (d3[spec.key].List? || Listed(dic, spec.keyList) == [])
    ensures var r4 := AppendListed(d3, spec.key, spec.keyList);
            r4.Success? ==>
              && spec.key in r4.value && AgreeBut(r4.value, dic, spec.key)
              && (Listed(dic, spec.keyList) == [] ==> r4.value[spec.key] == d3[spec.key])
              && (d3[spec.key].List? ==> r4.value[spec.key] == List(d3[spec.key].items + Listed(dic, spec.keyList)))
  {
    var key := spec.key;
    AppendListedSucceeds(d3, key, spec.keyList);
    AppendListedValue(d3, key, spec.keyList);
    ListedAgree(d3, dic, key, spec.keyList);
    assert AllIn(d3, spec.keyList) <==> AllIn(dic, spec.keyList);
  }

  /** The bool_dict loop on a row that agrees with `dic` but at the key, stated over `dic`. */
  lemma FlaggedStage(d4: Row, dic: Row, spec: M2MSpec)
    requires spec.key in d4 && AgreeBut(d4, dic, spec.key)
    requires forall j :: 0 <= j < |spec.flags| ==> spec.flags[j].0 != spec.key
    ensures var r5 := AppendFlags(d4, spec.key, spec.flags);
            r5.Success? <==>
              FlagsIn(dic, spec.flags) && (d4[spec.key].List? || Flagged(dic, spec.flags) == [])
    ensures var r5 := AppendFlags(d4, spec.key, spec.flags);
            r5.Success? ==>
              && (Flagged(dic, spec.flags) == [] ==> r5.value[spec.key] == d4[spec.key])
              && (d4[spec.key].List? ==> r5.value[spec.key] == List(d4[spec.key].items + Flagged(dic, spec.flags)))
  {
    var key := spec.key;
    AppendFlagsSucceeds(d4, key, spec.flags);
    AppendFlagsValue(d4, key, spec.flags);
    FlaggedAgree(d4, dic, key, spec.flags);
    assert FlagsIn(d4, spec.flags) <==> FlagsIn(dic, spec.flags);
  }

  /**
   * The key_list loop then the bool_dict loop, on a row that agrees with
   * `dic` but at the key, succeed iff every key read is present and the
   * value is a list whenever something is appended.
   */
  lemma AppendedSucceeds(d3: Row, dic: Row, spec: M2MSpec)
    requires spec.key in d3 && AgreeBut(d3, dic, spec.key) && NoSelfReference(spec)
    ensures var r4 := AppendListed(d3, spec.key, spec.keyList);
            (r4.Success? && AppendFlags(r4.value, spec.key, spec.flags).Success?) <==>
              ReadsPresent(dic, spec) && (d3[spec.key].List? || Extra(dic, spec) == [])
  {
    var key := spec.key;
    var listed := Listed(dic, spec.keyList);
    var flagged := Flagged(dic, spec.flags);
    assert Extra(dic, spec) == listed + flagged;
    ListedStage(d3, dic, spec);
    var r4 := AppendListed(d3, key, spec.keyList);
    if r4.Success? {
      FlaggedStage(r4.value, dic, spec);
      if listed == [] {
        assert r4.value[key] == d3[key];
      }
    }
  }

  /** After both loops the value under the key is extended by exactly the extra values, in order. */
  lemma AppendedValue(d3: Row, dic: Row, spec: M2MSpec)
    requires spec.key in d3 && AgreeBut(d3, dic, spec.key) && NoSelfReference(spec)
    ensures var r4 := AppendListed(d3, spec.key, spec.keyList);
            r4.Success? && AppendFlags(r4.value, spec.key, spec.flags).Success? ==>
              && (Extra(dic, spec) == [] ==> AppendFlags(r4.value, spec.key, spec.flags).value[spec.key] == d3[spec.key])
              && (d3[spec.key].List? ==>
                    AppendFlags(r4.value, spec.key, spec.flags).value[spec.key] == List(d3[spec.key].items + Extra(dic, spec)))
  {
    var key := spec.key;
    var listed := Listed(dic, spec.keyList);
    var flagged := Flagged(dic, spec.flags);
    assert Extra(dic, spec) == listed + flagged;
    ListedStage(d3, dic, spec);
    var r4 := AppendListed(d3, key, spec.keyList);
    if r4.Failure? {
      return;
    }
    var d4 := r4.value;
    FlaggedStage(d4, dic, spec);
    if d3[key].List? {
      assert d4[key] == List(d3[key].items + listed);
      assert d3[key].items + listed + flagged == d3[key].items + (listed + flagged);
    }
  }

  /** The key_list loop only appends to a list under the key. */
  lemma {:induction false} AppendListedGrows(dic: Row, key: string, sources: seq<string>)
    requires key in dic && dic[key].List? && AppendListed(dic, key, sources).Success?
    ensures AppendListed(dic, key, sources).value[key].List?
    ensures dic[key].items <= AppendListed(dic, key, sources).value[key].items
    decreases |sources|
  {
    if sources != [] {
      AppendListedGrows(dic, key, sources[..|sources| - 1]);
    }
  }

  /** The bool_dict loop only appends to a list under the key. */
  lemma {:induction false} AppendFlagsGrows(dic: Row, key: string, flags: seq<(string, string)>)
    requires key in dic && dic[key].List? && AppendFlags(dic, key, flags).Success?
    ensures AppendFlags(dic, key, flags).value[key].List?
    ensures dic[key].items <= AppendFlags(dic, key, flags).value[key].items
    decreases |flags|
  {
    if flags != [] {
      AppendFlagsGrows(dic, key, flags[..|flags| - 1]);
    }
  }

  /** A list of strings. */
  predicate StrList(v: Value)
  {
    v.List? && forall i :: 0 <= i < |v.items| ==> v.items[i].Str?
  }

  /**
   * The value before `strip` holds strings only, and a list the row holds
   * under the key is only appended to: in Python that list object is the
   * one that grows.
   */
  lemma PreparedGathered(dic: Row, spec: M2MSpec, re: RegexEngine)
    requires PrepareField(dic, spec, re).Success?
    ensures var g := PrepareField(dic, spec, re).value.gathered;
            g.List? ==> StrList(g)
    ensures spec.key in dic && dic[spec.key].List? ==>
            var g := PrepareField(dic, spec, re).value.gathered;
            g.List? && dic[spec.key].items <= g.items
  {
    var key := spec.key;
    var d2 := SplitValue(RemoveMatches(dic, key, spec.remove, re).value, key, spec.split, re).value;
    var d3 := if key in d2 then d2 else d2[key := List([])];
    var d4 := AppendListed(d3, key, spec.keyList).value;
    var d5 := AppendFlags(d4, key, spec.flags).value;
    var items := if d5[key].List? then d5[key].items else [d5[key]];
    StripAllFails(items);
    if key in dic && dic[key].List? {
      assert d3 == dic;
      AppendListedGrows(d3, key, spec.keyList);
      AppendFlagsGrows(d4, key, spec.flags);
    }
  }

  /**
   * The field whose m2m list is, after the entries `specs`, the very list
   * object the row holds under `key`. base.py:376-378 store the cleaned
   * list both in the row and in the m2m entry; the two stay one object
   * until a later entry with the same key name rebinds the row's value, or
   * one with the same field rebinds the m2m entry.
   */
  function Owner(specs: seq<M2MSpec>, key: string): (r: Option<string>)
  {
    if specs == [] then None
    else
      var last := specs[|specs| - 1];
      if last.key == key then Some(last.field)
      else
        var o := Owner(specs[..|specs| - 1], key);
        if o == Some(last.field) then None else o
  }

  /** Entry p's list is still shared with the row: no later entry has its key name or its field. */
  predicate Holds(specs: seq<M2MSpec>, p: int)
  {
    0 <= p < |specs| && forall q :: p < q < |specs| ==> specs[q].key != specs[p].key && specs[q].field != specs[p].field
  }

  /** An entry before the last keeps its list shared in all the entries when it does in all but the last and the last has neither its key name nor its field. */
  lemma HoldsLast(specs: seq<M2MSpec>)
    requires specs != []
    ensures var n := |specs| - 1;
            forall p :: 0 <= p < n ==>
              (Holds(specs, p) <==> Holds(specs[..n], p) && specs[n].key != specs[p].key && specs[n].field != specs[p].field)
  {
    var n := |specs| - 1;
    var init := specs[..n];
    forall p | 0 <= p < n
      ensures Holds(specs, p) <==> Holds(init, p) && specs[n].key != specs[p].key && specs[n].field != specs[p].field
    {
      assert init[p] == specs[p];
      if Holds(init, p) {
        assert forall q :: p < q < n ==> init[q] == specs[q];
      }
    }
  }

  /** Owner names the field of exactly the entry whose list the row still holds under the key. */
  lemma {:induction false} OwnerMeaning(specs: seq<M2MSpec>, key: string)
    ensures Owner(specs, key).Some? <==> exists p :: Holds(specs, p) && specs[p].key == key
    ensures forall p :: Holds(specs, p) && specs[p].key == key ==> Owner(specs, key) == Some(specs[p].field)
    decreases |specs|
  {
    if specs != [] {
      var n := |specs| - 1;
      var init, last := specs[..n], specs[n];
      OwnerMeaning(init, key);
      assert Holds(specs, n);
      HoldsLast(specs);
      if last.key != key && Owner(init, key).Some? && Owner(init, key) != Some(last.field) {
        var p :| Holds(init, p) && init[p].key == key;
        assert Holds(specs, p);
      }
    }
  }

  /** Two key names never share one field's list. */
  /** The entry whose list the row holds under a key that has an owner. */
  lemma OwnerEntry(specs: seq<M2MSpec>, key: string) returns (p: nat)
    requires Owner(specs, key).Some?
    ensures Holds(specs, p) && specs[p].key == key && specs[p].field == Owner(specs, key).value
  {
    OwnerMeaning(specs, key);
    p :| Holds(specs, p) && specs[p].key == key;
  }

  lemma OwnerInjective(specs: seq<M2MSpec>, x: string, y: string)
    requires Owner(specs, x).Some? && Owner(specs, x) == Owner(specs, y)
    ensures x == y
  {
    OwnerMeaning(specs, x);
    OwnerMeaning(specs, y);
    var p :| Holds(specs, p) && specs[p].key == x;
    var q :| Holds(specs, q) && specs[q].key == y;
  }

  /** The owner of a key name is one of the m2m fields. */
  lemma {:induction false} OwnerInFields(specs: seq<M2MSpec>, key: string)
    requires Owner(specs, key).Some?
    ensures Owner(specs, key).value in Fields(specs)
    decreases |specs|
  {
    var n := |specs| - 1;
    var init := specs[..n];
    assert Fields(specs) == Fields(init) + {specs[n].field};
    if specs[n].key != key {
      OwnerInFields(init, key);
    }
  }

  /** One more entry: its key name now shares its field's list, and a key that shared that field no longer does. */
  lemma OwnerStep(specs: seq<M2MSpec>, i: nat)
    requires i < |specs|
    ensures forall x :: Owner(specs[..i + 1], x) ==
              if x == specs[i].key then Some(specs[i].field)
              else if Owner(specs[..i], x) == Some(specs[i].field) then None
              else Owner(specs[..i], x)
  {
    var s := specs[..i + 1];
    assert s[..i] == specs[..i] && s[i] == specs[i];
    forall x
      ensures Owner(s, x) ==
              if x == specs[i].key then Some(specs[i].field)
              else if Owner(specs[..i], x) == Some(specs[i].field) then None
              else Owner(specs[..i], x)
    {
    }
  }

  /** The m2m fields one entry stores into: its own, and the one whose list its key name shares. */
  function Stores(spec: M2MSpec, shared: Option<string>): set<string>
  {
    {spec.field} + if shared.Some? then {shared.value} else {}
  }

  /**
   * The m2m lists after one entry: the list its key name shares (if any)
   * is the value the entry appended to, and its field gets the cleaned list.
   */
  function StoreLists(lists: Row, shared: Option<string>, spec: M2MSpec, step: Prepared): (r: Row)
    ensures r.Keys == lists.Keys + Stores(spec, shared)
    ensures WritesOnly(lists, r, Stores(spec, shared))
    ensures r[spec.field] == List(Strs(step.cleaned))
    ensures shared.Some? && shared.value != spec.field ==> r[shared.value] == step.gathered
  {
    var grown := if shared.Some? then lists[shared.value := step.gathered] else lists;
    grown[spec.field := List(Strs(step.cleaned))]
  }

  /**
   * Every entry of `m2m` applied to the row in turn, and the m2m lists
   * collected by field (a later entry wins). An entry whose key name still
   * holds the list an earlier entry stored appends to that very list, so
   * the earlier field's list grows too.
   */
  function PrepareFields(dic: Row, specs: seq<M2MSpec>, re: RegexEngine): (r: Result<(Row, Row), Error>)
    ensures r.Success? ==> r.value.0.Keys == dic.Keys + KeyNames(specs)
    ensures r.Success? ==> forall k :: k in dic && k !in KeyNames(specs) ==> r.value.0[k] == dic[k]
    ensures r.Success? ==> r.value.1.Keys == Fields(specs)
  {
    if specs == [] then Success((dic, map[]))
    else
      var init := specs[..|specs| - 1];
      var spec := specs[|specs| - 1];
      assert KeyNames(specs) == KeyNames(init) + {spec.key};
      assert Fields(specs) == Fields(init) + {spec.field};
      var (d, lists) :- PrepareFields(dic, init, re);
      var step :- PrepareField(d, spec, re);
      var shared := Owner(init, spec.key);
      if shared.Some? then
        OwnerInFields(init, spec.key);
        Success((step.row, StoreLists(lists, shared, spec, step)))
      else
        Success((step.row, StoreLists(lists, shared, spec, step)))
  }

  /**
   * A key name and its owner's field hold one list, a clean one, in the row
   * and in the m2m entry.
   */
  ghost predicate SharedLists(row: Row, lists: Row, specs: seq<M2MSpec>)
  {
    forall x :: Owner(specs, x).Some? ==>
      x in row && Owner(specs, x).value in lists && lists[Owner(specs, x).value] == row[x] && CleanList(row[x])
  }

  /** Every m2m list is a list of strings. */
  predicate StrLists(lists: Row)
  {
    forall f :: f in lists ==> StrList(lists[f])
  }

  /** After the entries, the row and the m2m lists share as SharedLists says, and every m2m list is a list of strings. */
  lemma {:induction false} PrepareFieldsShares(dic: Row, specs: seq<M2MSpec>, re: RegexEngine)
    requires PrepareFields(dic, specs, re).Success?
    ensures SharedLists(PrepareFields(dic, specs, re).value.0, PrepareFields(dic, specs, re).value.1, specs)
    ensures StrLists(PrepareFields(dic, specs, re).value.1)
    decreases |specs|
  {
    if specs != [] {
      var n := |specs| - 1;
      var init, spec := specs[..n], specs[n];
      PrepareFieldsShares(dic, init, re);
      var (d, lists) := PrepareFields(dic, init, re).value;
      SharesStep(d, lists, init, spec, re);
      InitLast(specs);
    }
  }

  lemma InitLast(specs: seq<M2MSpec>)
    requires specs != []
    ensures specs[..|specs| - 1] + [specs[|specs| - 1]] == specs
  {
  }

  /** One more entry keeps the sharing and the lists of strings. */
  lemma SharesStep(d: Row, lists: Row, init: seq<M2MSpec>, spec: M2MSpec, re: RegexEngine)
    requires PrepareField(d, spec, re).Success? && SharedLists(d, lists, init) && StrLists(lists)
    ensures var step := PrepareField(d, spec, re).value;
            var lists' := StoreLists(lists, Owner(init, spec.key), spec, step);
            SharedLists(step.row, lists', init + [spec]) && StrLists(lists')
  {
    var specs := init + [spec];
    assert specs[..|init|] == init;
    var step := PrepareField(d, spec, re).value;
    var shared := Owner(init, spec.key);
    var lists' := StoreLists(lists, shared, spec, step);
    if shared.Some? {
      PreparedGathered(d, spec, re);
    }
    forall x | Owner(specs, x).Some?
      ensures x in step.row && Owner(specs, x).value in lists' && lists'[Owner(specs, x).value] == step.row[x]
      ensures CleanList(step.row[x])
    {
      if x != spec.key {
        assert Owner(specs, x) == Owner(init, x);
        if shared.Some? && Owner(init, x) == shared {
          OwnerInjective(init, x, spec.key);
        }
      }
    }
  }

  /** Entry j is the last entry of `specs` with its field. */
  predicate LastWithField(specs: seq<M2MSpec>, j: nat)
  {
    j < |specs| && forall l :: j < l < |specs| ==> specs[l].field != specs[j].field
  }

  /** The first entry from `from` on with the key name of entry j. */
  function NextWithKey(specs: seq<M2MSpec>, j: nat, from: nat): (r: Option<nat>)
    requires j < |specs|
    ensures r.None? ==> forall q :: from <= q < |specs| ==> specs[q].key != specs[j].key
    ensures r.Some? ==> from <= r.value < |specs| && specs[r.value].key == specs[j].key
    ensures r.Some? ==> forall q :: from <= q < r.value ==> specs[q].key != specs[j].key
    decreases |specs| - from
  {
    if from >= |specs| then None
    else if specs[from].key == specs[j].key then Some(from)
    else NextWithKey(specs, j, from + 1)
  }

  /**
   * The list m2m_data keeps for entry j's field, when j is the last entry
   * with that field: the list entry j cleans from the row the entries
   * before it leave, unless a later entry has j's key name; then it is the
   * list the first such entry appends to before stripping.
   */
  predicate StoredList(dic: Row, specs: seq<M2MSpec>, re: RegexEngine, j: nat, v: Value)
    requires j < |specs|
  {
    && PrepareFields(dic, specs[..j], re).Success?
    && PrepareField(PrepareFields(dic, specs[..j], re).value.0, specs[j], re).Success?
    && match NextWithKey(specs, j, j + 1)
       case None => v == List(Strs(PrepareField(PrepareFields(dic, specs[..j], re).value.0, specs[j], re).value.cleaned))
       case Some(i) =>
         && PrepareFields(dic, specs[..i], re).Success?
         && PrepareField(PrepareFields(dic, specs[..i], re).value.0, specs[i], re).Success?
         && v == PrepareField(PrepareFields(dic, specs[..i], re).value.0, specs[i], re).value.gathered
  }

  /** The last entry that stores into entry j's list: j, or the first later entry with its key name. */
  function LastStore(specs: seq<M2MSpec>, j: nat): (r: nat)
    requires j < |specs|
    ensures j <= r < |specs|
  {
    match NextWithKey(specs, j, j + 1)
    case None => j
    case Some(i) => i
  }

  /** The m2m list PrepareFields keeps under a field is the one StoredList describes. */
  lemma PrepareFieldsAt(dic: Row, specs: seq<M2MSpec>, re: RegexEngine, j: nat)
    requires PrepareFields(dic, specs, re).Success? && LastWithField(specs, j)
    ensures specs[j].field in PrepareFields(dic, specs, re).value.1
    ensures StoredList(dic, specs, re, j, PrepareFields(dic, specs, re).value.1[specs[j].field])
  {
    PrepareFieldsSucceeds(dic, specs, re, j);
    if NextWithKey(specs, j, j + 1).None? {
      StoredUnshared(dic, specs, re, j);
    } else {
      StoredShared(dic, specs, re, j);
    }
  }

  /** In a row PrepareFields gets through, every entry succeeds on the row the entries before it leave. */
  lemma PrepareFieldsSucceeds(dic: Row, specs: seq<M2MSpec>, re: RegexEngine, i: nat)
    requires PrepareFields(dic, specs, re).Success? && i < |specs|
    ensures PrepareFields(dic, specs[..i], re).Success?
    ensures PrepareField(PrepareFields(dic, specs[..i], re).value.0, specs[i], re).Success?
  {
    PrepareFieldsPrefix(dic, specs, re, i);
    PrepareFieldsPrefix(dic, specs, re, i + 1);
    PrepareFieldsStep(dic, specs, i, re);
  }

  /** With no later entry of the same key name, a field keeps the list its last entry cleans. */
  lemma StoredUnshared(dic: Row, specs: seq<M2MSpec>, re: RegexEngine, j: nat)
    requires PrepareFields(dic, specs, re).Success? && LastWithField(specs, j) && NextWithKey(specs, j, j + 1).None?
    ensures PrepareFields(dic, specs[..j], re).Success?
    ensures PrepareField(PrepareFields(dic, specs[..j], re).value.0, specs[j], re).Success?
    ensures specs[j].field in PrepareFields(dic, specs, re).value.1
    ensures PrepareFields(dic, specs, re).value.1[specs[j].field]
            == List(Strs(PrepareField(PrepareFields(dic, specs[..j], re).value.0, specs[j], re).value.cleaned))
  {
    PrepareFieldsKept(dic, specs, re, j);
    assert LastStore(specs, j) == j;
    PrepareFieldsPrefix(dic, specs, re, j);
    PrepareFieldsStep(dic, specs, j, re);
  }

  /** Otherwise a field keeps the list the first later entry of the same key name appends to. */
  lemma StoredShared(dic: Row, specs: seq<M2MSpec>, re: RegexEngine, j: nat)
    requires PrepareFields(dic, specs, re).Success? && LastWithField(specs, j) && NextWithKey(specs, j, j + 1).Some?
    ensures var i := NextWithKey(specs, j, j + 1).value;
            && PrepareFields(dic, specs[..i], re).Success?
            && PrepareField(PrepareFields(dic, specs[..i], re).value.0, specs[i], re).Success?
            && specs[j].field in PrepareFields(dic, specs, re).value.1
            && PrepareFields(dic, specs, re).value.1[specs[j].field]
               == PrepareField(PrepareFields(dic, specs[..i], re).value.0, specs[i], re).value.gathered
  {
    var i := NextWithKey(specs, j, j + 1).value;
    PrepareFieldsKept(dic, specs, re, j);
    assert LastStore(specs, j) == i;
    PrepareFieldsPrefix(dic, specs, re, i);
    PrepareFieldsPrefix(dic, specs, re, i + 1);
    WrittenAfter(specs, j, i);
    StepShared(dic, specs, re, i, specs[j].field);
  }

  /** An entry whose key name shares field f's list leaves in f the list it appended to. */
  lemma StepShared(dic: Row, specs: seq<M2MSpec>, re: RegexEngine, i: nat, f: string)
    requires i < |specs| && PrepareFields(dic, specs[..i], re).Success? && PrepareFields(dic, specs[..i + 1], re).Success?
    requires Owner(specs[..i], specs[i].key) == Some(f) && f != specs[i].field
    ensures PrepareField(PrepareFields(dic, specs[..i], re).value.0, specs[i], re).Success?
    ensures f in PrepareFields(dic, specs[..i + 1], re).value.1
    ensures PrepareFields(dic, specs[..i + 1], re).value.1[f]
            == PrepareField(PrepareFields(dic, specs[..i], re).value.0, specs[i], re).value.gathered
  {
    PrepareFieldsStep(dic, specs, i, re);
  }

  /** A row PrepareFields gets through, every prefix of the entries gets through too. */
  lemma PrepareFieldsPrefix(dic: Row, specs: seq<M2MSpec>, re: RegexEngine, k: nat)
    requires k <= |specs| && PrepareFields(dic, specs, re).Success?
    ensures PrepareFields(dic, specs[..k], re).Success?
  {
    if PrepareFields(dic, specs[..k], re).Failure? {
      PrepareFieldsStops(dic, specs, re, k);
    }
  }

  /**
   * The entries after the last one that stores into a field's list leave
   * that list as it left it.
   */
  lemma PrepareFieldsKept(dic: Row, specs: seq<M2MSpec>, re: RegexEngine, j: nat)
    requires PrepareFields(dic, specs, re).Success? && LastWithField(specs, j)
    ensures PrepareFields(dic, specs[..LastStore(specs, j) + 1], re).Success?
    ensures specs[j].field in PrepareFields(dic, specs, re).value.1
    ensures specs[j].field in PrepareFields(dic, specs[..LastStore(specs, j) + 1], re).value.1
    ensures PrepareFields(dic, specs, re).value.1[specs[j].field]
            == PrepareFields(dic, specs[..LastStore(specs, j) + 1], re).value.1[specs[j].field]
  {
    var w := LastStore(specs, j);
    var f := specs[j].field;
    PrepareFieldsWrites(dic, specs, re);
    if w == j {
      assert f in WrittenSets(specs)[w];
    } else {
      WrittenAfter(specs, j, w);
      assert f in WrittenSets(specs)[w];
    }
    forall l | w < l < |specs|
      ensures f !in WrittenSets(specs)[l]
    {
      WrittenAfter(specs, j, l);
    }
    LastWriteWins(AllLists(dic, specs, re), WrittenSets(specs), f, w, |specs|);
    PrepareFieldsPrefix(dic, specs, re, w + 1);
    assert specs[..|specs|] == specs;
  }

  /** The fields entry i stores into. */
  function Written(specs: seq<M2MSpec>, i: nat): set<string>
    requires i < |specs|
  {
    Stores(specs[i], Owner(specs[..i], specs[i].key))
  }

  /** The fields each entry stores into, in order. */
  function WrittenSets(specs: seq<M2MSpec>): (r: seq<set<string>>)
    ensures |r| == |specs| && forall i :: 0 <= i < |specs| ==> r[i] == Written(specs, i)
  {
    seq(|specs|, i requires 0 <= i < |specs| => Written(specs, i))
  }

  /**
   * After the last entry j with a field, an entry stores into that field's
   * list exactly when it is the first later entry with j's key name.
   */
  lemma WrittenAfter(specs: seq<M2MSpec>, j: nat, l: nat)
    requires LastWithField(specs, j) && j < l < |specs|
    ensures specs[j].field in Written(specs, l) <==> NextWithKey(specs, j, j + 1) == Some(l)
  {
    assert specs[l].field != specs[j].field;
    if NextWithKey(specs, j, j + 1) == Some(l) {
      NextKeyShares(specs, j, l);
    }
    if Owner(specs[..l], specs[l].key) == Some(specs[j].field) {
      SharesNextKey(specs, j, l);
    }
  }

  /** The first later entry with j's key name finds j's list under it. */
  lemma NextKeyShares(specs: seq<M2MSpec>, j: nat, l: nat)
    requires LastWithField(specs, j) && j < l < |specs| && NextWithKey(specs, j, j + 1) == Some(l)
    ensures Owner(specs[..l], specs[l].key) == Some(specs[j].field)
  {
    var s := specs[..l];
    assert Holds(s, j);
    OwnerMeaning(s, specs[l].key);
  }

  /** An entry after j that finds j's list under its key name is the first later entry with j's key name. */
  lemma SharesNextKey(specs: seq<M2MSpec>, j: nat, l: nat)
    requires LastWithField(specs, j) && j < l < |specs| && Owner(specs[..l], specs[l].key) == Some(specs[j].field)
    ensures NextWithKey(specs, j, j + 1) == Some(l)
  {
    var s := specs[..l];
    var p := OwnerEntry(s, specs[l].key);
    assert p == j by {
      assert s[p] == specs[p] && s[j] == specs[j];
    }
    forall q | j < q < l
      ensures specs[q].key != specs[j].key
    {
      assert s[q] == specs[q];
    }
    NextKeyIs(specs, j, l);
  }

  /** The first entry after j with j's key name is l when l has it and none between does. */
  lemma NextKeyIs(specs: seq<M2MSpec>, j: nat, l: nat)
    requires j < l < |specs| && specs[l].key == specs[j].key
    requires forall q :: j < q < l ==> specs[q].key != specs[j].key
    ensures NextWithKey(specs, j, j + 1) == Some(l)
  {
  }

  /** The m2m lists after each prefix of the entries, empty for a prefix that fails. */
  function AllLists(dic: Row, specs: seq<M2MSpec>, re: RegexEngine): (r: seq<Row>)
    ensures |r| == |specs| + 1
    ensures forall k :: 0 <= k <= |specs| && PrepareFields(dic, specs[..k], re).Success? ==>
              r[k] == PrepareFields(dic, specs[..k], re).value.1
  {
    seq(|specs| + 1, k requires 0 <= k <= |specs| =>
      var p := PrepareFields(dic, specs[..k], re);
      if p.Success? then p.value.1 else map[])
  }

  /** Each entry stores into its fields and keeps every other list. */
  lemma PrepareFieldsWrites(dic: Row, specs: seq<M2MSpec>, re: RegexEngine)
    requires PrepareFields(dic, specs, re).Success?
    ensures forall i {:trigger WrittenSets(specs)[i]} :: 0 <= i < |specs| ==>
              WritesOnly(AllLists(dic, specs, re)[i], AllLists(dic, specs, re)[i + 1], WrittenSets(specs)[i])
  {
    forall i | 0 <= i < |specs|
      ensures WritesOnly(AllLists(dic, specs, re)[i], AllLists(dic, specs, re)[i + 1], WrittenSets(specs)[i])
    {
      PrepareFieldsWritesAt(dic, specs, re, i);
    }
  }

  /** Entry i stores into its field and the field its key name shares, and keeps every other list. */
  lemma PrepareFieldsWritesAt(dic: Row, specs: seq<M2MSpec>, re: RegexEngine, i: nat)
    requires PrepareFields(dic, specs, re).Success? && i < |specs|
    ensures PrepareFields(dic, specs[..i], re).Success? && PrepareFields(dic, specs[..i + 1], re).Success?
    ensures WritesOnly(PrepareFields(dic, specs[..i], re).value.1, PrepareFields(dic, specs[..i + 1], re).value.1, Written(specs, i))
  {
    PrepareFieldsPrefix(dic, specs, re, i);
    PrepareFieldsPrefix(dic, specs, re, i + 1);
    PrepareFieldsStep(dic, specs, i, re);
  }

  /** `after` holds every key of `keys`, and every other key of `before` with its value. */
  predicate WritesOnly(before: Row, after: Row, keys: set<string>)
  {
    (forall g :: g in keys ==> g in after) && forall g :: g in before && g !in keys ==> g in after && after[g] == before[g]
  }

  /**
   * A sequence of maps where each step stores into some keys and keeps the
   * others: a key keeps the value of its last store.
   */
  lemma {:induction false} LastWriteWins(lists: seq<Row>, writes: seq<set<string>>, x: string, j: nat, k: nat)
    requires |lists| == |writes| + 1 && j < k <= |writes|
    requires forall i {:trigger writes[i]} :: 0 <= i < |writes| ==> WritesOnly(lists[i], lists[i + 1], writes[i])
    requires x in writes[j] && forall l :: j < l < k ==> x !in writes[l]
    ensures x in lists[j + 1] && x in lists[k]
    ensures lists[k][x] == lists[j + 1][x]
    decreases k
  {
    assert WritesOnly(lists[j], lists[j + 1], writes[j]);
    if k > j + 1 {
      LastWriteWins(lists, writes, x, j, k - 1);
      assert x !in writes[k - 1];
    }
  }

  /**
   * When a later entry has entry j's key name, the list kept for j's field
   * is j's cleaned list with the values the first such entry appends; with
   * no self reference in that entry, those are the values it reads off the
   * row as the entries before it leave it.
   */
  lemma PrepareFieldsReused(dic: Row, specs: seq<M2MSpec>, re: RegexEngine, j: nat)
    requires PrepareFields(dic, specs, re).Success? && LastWithField(specs, j) && NextWithKey(specs, j, j + 1).Some?
    ensures specs[j].field in PrepareFields(dic, specs, re).value.1
    ensures var i := NextWithKey(specs, j, j + 1).value;
            var v := PrepareFields(dic, specs, re).value.1[specs[j].field];
            && PrepareFields(dic, specs[..j], re).Success?
            && PrepareField(PrepareFields(dic, specs[..j], re).value.0, specs[j], re).Success?
            && PrepareFields(dic, specs[..i], re).Success?
            && v.List?
            && Strs(PrepareField(PrepareFields(dic, specs[..j], re).value.0, specs[j], re).value.cleaned) <= v.items
            && (NoSelfReference(specs[i]) ==>
                  v.items == Strs(PrepareField(PrepareFields(dic, specs[..j], re).value.0, specs[j], re).value.cleaned)
                             + Extra(PrepareFields(dic, specs[..i], re).value.0, specs[i]))
  {
    var i := NextWithKey(specs, j, j + 1).value;
    StoredShared(dic, specs, re, j);
    RowBeforeReuse(dic, specs, re, j);
    var row := PrepareFields(dic, specs[..i], re).value.0;
    PreparedGathered(row, specs[i], re);
    if NoSelfReference(specs[i]) {
      PrepareFieldContent(row, specs[i], re);
    }
  }

  /** Entry j stores its cleaned list under its field. */
  lemma StepOwn(dic: Row, specs: seq<M2MSpec>, re: RegexEngine, j: nat)
    requires PrepareFields(dic, specs, re).Success? && j < |specs|
    ensures PrepareFields(dic, specs[..j], re).Success? && PrepareFields(dic, specs[..j + 1], re).Success?
    ensures PrepareField(PrepareFields(dic, specs[..j], re).value.0, specs[j], re).Success?
    ensures specs[j].field in PrepareFields(dic, specs[..j + 1], re).value.1
    ensures PrepareFields(dic, specs[..j + 1], re).value.1[specs[j].field]
            == List(Strs(PrepareField(PrepareFields(dic, specs[..j], re).value.0, specs[j], re).value.cleaned))
  {
    PrepareFieldsPrefix(dic, specs, re, j);
    PrepareFieldsPrefix(dic, specs, re, j + 1);
    PrepareFieldsStep(dic, specs, j, re);
  }

  /** Up to the first later entry with its key name, the last entry j with a field keeps its cleaned list there. */
  lemma ListBeforeReuse(dic: Row, specs: seq<M2MSpec>, re: RegexEngine, j: nat)
    requires PrepareFields(dic, specs, re).Success? && LastWithField(specs, j) && NextWithKey(specs, j, j + 1).Some?
    ensures var i := NextWithKey(specs, j, j + 1).value;
            && PrepareFields(dic, specs[..j], re).Success?
            && PrepareField(PrepareFields(dic, specs[..j], re).value.0, specs[j], re).Success?
            && PrepareFields(dic, specs[..i], re).Success?
            && specs[j].field in PrepareFields(dic, specs[..i], re).value.1
            && PrepareFields(dic, specs[..i], re).value.1[specs[j].field]
               == List(Strs(PrepareField(PrepareFields(dic, specs[..j], re).value.0, specs[j], re).value.cleaned))
  {
    var i := NextWithKey(specs, j, j + 1).value;
    var f := specs[j].field;
    StepOwn(dic, specs, re, j);
    PrepareFieldsPrefix(dic, specs, re, i);
    PrepareFieldsWrites(dic, specs, re);
    assert f in WrittenSets(specs)[j];
    forall l | j < l < i
      ensures f !in WrittenSets(specs)[l]
    {
      WrittenAfter(specs, j, l);
    }
    LastWriteWins(AllLists(dic, specs, re), WrittenSets(specs), f, j, i);
  }

  /** Just before that later entry, the row holds the same list under the key name. */
  lemma RowBeforeReuse(dic: Row, specs: seq<M2MSpec>, re: RegexEngine, j: nat)
    requires PrepareFields(dic, specs, re).Success? && LastWithField(specs, j) && NextWithKey(specs, j, j + 1).Some?
    ensures var i := NextWithKey(specs, j, j + 1).value;
            && PrepareFields(dic, specs[..j], re).Success?
            && PrepareField(PrepareFields(dic, specs[..j], re).value.0, specs[j], re).Success?
            && PrepareFields(dic, specs[..i], re).Success?
            && specs[i].key in PrepareFields(dic, specs[..i], re).value.0
            && PrepareFields(dic, specs[..i], re).value.0[specs[i].key]
               == List(Strs(PrepareField(PrepareFields(dic, specs[..j], re).value.0, specs[j], re).value.cleaned))
  {
    var i := NextWithKey(specs, j, j + 1).value;
    ListBeforeReuse(dic, specs, re, j);
    WrittenAfter(specs, j, i);
    PrepareFieldsShares(dic, specs[..i], re);
  }

  /** PrepareFields of a sequence given as its last entry appended to the entries before it. */
  lemma PrepareFieldsAppend(dic: Row, init: seq<M2MSpec>, spec: M2MSpec, re: RegexEngine)
    requires PrepareFields(dic, init, re).Success?
    ensures var (d, lists) := PrepareFields(dic, init, re).value;
            var step := PrepareField(d, spec, re);
            PrepareFields(dic, init + [spec], re) ==
              if step.Failure? then Failure(step.error)
              else Success((step.value.row, StoreLists(lists, Owner(init, spec.key), spec, step.value)))
  {
    PrepareFieldsStep(dic, init + [spec], |init|, re);
    assert (init + [spec])[..|init|] == init;
    assert (init + [spec])[..|init| + 1] == init + [spec];
  }

  /** PrepareFields of one entry: that entry applied to the row. */
  lemma PrepareFieldsSingle(dic: Row, a: M2MSpec, re: RegexEngine)
    ensures var step := PrepareField(dic, a, re);
            PrepareFields(dic, [a], re) ==
              if step.Failure? then Failure(step.error)
              else Success((step.value.row, map[a.field := List(Strs(step.value.cleaned))]))
  {
    assert PrepareFields(dic, [], re) == Success((dic, map[]));
    PrepareFieldsAppend(dic, [], a, re);
    assert [] + [a] == [a];
    assert Owner([], a.key) == None;
  }

  /** PrepareFields of two entries: the second applied to what the first leaves. */
  lemma PrepareFieldsPair(dic: Row, a: M2MSpec, b: M2MSpec, re: RegexEngine)
    requires PrepareFields(dic, [a], re).Success?
    ensures var (d, lists) := PrepareFields(dic, [a], re).value;
            var step := PrepareField(d, b, re);
            PrepareFields(dic, [a, b], re) ==
              if step.Failure? then Failure(step.error)
              else Success((step.value.row, StoreLists(lists, Owner([a], b.key), b, step.value)))
  {
    PrepareFieldsAppend(dic, [a], b, re);
    assert [a] + [b] == [a, b];
  }

  // A worked case of a key name shared by two m2m entries, a:k and b:k with key_list [x], on the row
  // {id: "1", k: "p", x: " q "}; SharedKeyNameExample states the outcome.

  lemma ExampleStrip()
    ensures Strip("p") == "p" && Strip(" q ") == "q"
  {
    assert Leading("p") == 0 && TrimRight("p") == "p";
    assert Leading("q ") == 0 && " q "[1..] == "q " && "q "[..1] == "q";
    assert TrimRight("q ") == TrimRight("q") == "q";
  }

  lemma ExampleStrs()
    ensures Strs(["p"]) == [Str("p")] && Strs(["p", "q"]) == [Str("p"), Str("q")]
  {
    assert Strs(["p"])[0] == Str("p");
    assert Strs(["p", "q"])[1] == Str("q");
  }

  lemma ExampleStripAll()
    ensures StripAll([Str("p")]) == Success(["p"])
    ensures StripAll([Str("p"), Str(" q ")]) == Success(["p", "q"])
  {
    ExampleStrip();
    assert [Str("p")][..0] == [] && [] + ["p"] == ["p"];
    assert StripEach([Str("p")], Strip) == Success(["p"]);
    assert [Str("p"), Str(" q ")][..1] == [Str("p")] && ["p"] + ["q"] == ["p", "q"];
  }

  lemma ExampleFirstField(re: RegexEngine)
    ensures var dic: Row := map["id" := Str("1"), "k" := Str("p"), "x" := Str(" q ")];
            PrepareField(dic, M2MSpec("a", "k", "", "", [], []), re) == Success(Prepared(dic["k" := List([Str("p")])], Str("p"), ["p"]))
  {
    ExampleStripAll();
    var dic: Row := map["id" := Str("1"), "k" := Str("p"), "x" := Str(" q ")];
    assert AppendListed(dic, "k", []) == Success(dic);
    assert AppendFlags(dic, "k", []) == Success(dic);
    ExampleStrs();
  }

  lemma ExampleAppend()
    ensures var d0: Row := map["id" := Str("1"), "k" := List([Str("p")]), "x" := Str(" q ")];
            AppendListed(d0, "k", ["x"]) == Success(d0["k" := List([Str("p"), Str(" q ")])])
  {
    var d0: Row := map["id" := Str("1"), "k" := List([Str("p")]), "x" := Str(" q ")];
    assert ["x"][..0] == [];
    assert AppendListed(d0, "k", []) == Success(d0);
    assert [Str("p")] + [Str(" q ")] == [Str("p"), Str(" q ")];
  }

  lemma ExampleSecondField(re: RegexEngine)
    ensures var d0: Row := map["id" := Str("1"), "k" := Str("p"), "x" := Str(" q ")]["k" := List([Str("p")])];
            var r := PrepareField(d0, M2MSpec("b", "k", "", "", ["x"], []), re);
            r.Success? && r.value.gathered == List([Str("p"), Str(" q ")]) && r.value.cleaned == ["p", "q"]
  {
    ExampleStripAll();
    ExampleAppend();
    var d0: Row := map["id" := Str("1"), "k" := Str("p"), "x" := Str(" q ")]["k" := List([Str("p")])];
    assert d0 == map["id" := Str("1"), "k" := List([Str("p")]), "x" := Str(" q ")];
    var g := List([Str("p"), Str(" q ")]);
    assert AppendFlags(d0["k" := g], "k", []) == Success(d0["k" := g]);
  }

  lemma ExampleFirstEntry(re: RegexEngine)
    ensures var a := M2MSpec("a", "k", "", "", [], []);
            var dic: Row := map["id" := Str("1"), "k" := Str("p"), "x" := Str(" q ")];
            PrepareFields(dic, [a], re) == Success((dic["k" := List([Str("p")])], map["a" := List([Str("p")])]))
  {
    var a := M2MSpec("a", "k", "", "", [], []);
    var dic: Row := map["id" := Str("1"), "k" := Str("p"), "x" := Str(" q ")];
    ExampleFirstField(re);
    PrepareFieldsSingle(dic, a, re);
    ExampleStrs();
  }

  /**
   * Two entries with the key name k, for fields a and b, where b appends
   * column x: b appends " q " to the very list a stored, so a ends up with
   * the raw " q " after its cleaned "p", while b gets the stripped list.
   */
  lemma SharedKeyNameExample(re: RegexEngine)
    ensures var a := M2MSpec("a", "k", "", "", [], []);
            var b := M2MSpec("b", "k", "", "", ["x"], []);
            var dic: Row := map["id" := Str("1"), "k" := Str("p"), "x" := Str(" q ")];
            PrepareFields(dic, [a, b], re).Success? &&
            var lists := PrepareFields(dic, [a, b], re).value.1;
            "a" in lists && lists["a"] == List([Str("p"), Str(" q ")]) && "b" in lists && lists["b"] == List([Str("p"), Str("q")])
  {
    var a := M2MSpec("a", "k", "", "", [], []);
    var b := M2MSpec("b", "k", "", "", ["x"], []);
    var dic: Row := map["id" := Str("1"), "k" := Str("p"), "x" := Str(" q ")];
    ExampleFirstEntry(re);
    ExampleSecondField(re);
    assert Owner([a], "k") == Some("a");
    PrepareFieldsPair(dic, a, b, re);
    ExampleStrs();
  }

  /**
   * One row of prepare_m2m: the new row without keys_to_remove, and its
   * m2m_data entry holding the row's unique value and every m2m list. A key
   * name that is not removed holds the same list as its owner's field.
   */
  function PrepareRow(dic: Row, specs: seq<M2MSpec>, removeKeys: set<string>, unique: string, re: RegexEngine)
    : (r: Result<(Row, Row), Error>)
    ensures unique !in dic ==> r == Failure(KeyError(unique))
    ensures r.Success? ==> r.value.0.Keys == (dic.Keys + KeyNames(specs)) - removeKeys
    ensures r.Success? ==> forall k :: k in dic && k !in KeyNames(specs) && k !in removeKeys ==> r.value.0[k] == dic[k]
    ensures r.Success? ==> r.value.1.Keys == Fields(specs) + {unique}
    ensures r.Success? ==> forall f :: f in Fields(specs) ==> StrList(r.value.1[f])
    ensures r.Success? ==> forall x :: Owner(specs, x).Some? ==>
              Owner(specs, x).value in r.value.1 && CleanList(r.value.1[Owner(specs, x).value])
    ensures r.Success? ==> forall x :: Owner(specs, x).Some? && x !in removeKeys ==>
              x in r.value.0 && Owner(specs, x).value in r.value.1 && r.value.0[x] == r.value.1[Owner(specs, x).value]
    ensures r.Success? && unique !in Fields(specs) ==> r.value.1[unique] == dic[unique]
  {
    if unique !in dic then Failure(KeyError(unique))
    else
      var (d, lists) :- PrepareFields(dic, specs, re);
      PrepareFieldsShares(dic, specs, re);
      Success((map k | k in d && k !in removeKeys :: d[k], map[unique := dic[unique]] + lists))
  }

  /** The m2m_data entry of one row holds, under the field of the last entry j naming it, the list StoredList describes. */
  lemma PrepareRowAt(dic: Row, specs: seq<M2MSpec>, removeKeys: set<string>, unique: string, re: RegexEngine, j: nat)
    requires PrepareRow(dic, specs, removeKeys, unique, re).Success? && LastWithField(specs, j)
    ensures specs[j].field in PrepareRow(dic, specs, removeKeys, unique, re).value.1
    ensures StoredList(dic, specs, re, j, PrepareRow(dic, specs, removeKeys, unique, re).value.1[specs[j].field])
  {
    PrepareFieldsAt(dic, specs, re, j);
  }

  /** Every row in turn through `prepare`; the first failure stops the loop. */
  function EachRow(data: seq<Row>, prepare: Row -> Result<(Row, Row), Error>): (r: Result<(seq<Row>, seq<Row>), Error>)
    ensures r.Success? ==> |r.value.0| == |data| && |r.value.1| == |data|
  {
    if data == [] then Success(([], []))
    else
      var (rows, entries) :- EachRow(data[..|data| - 1], prepare);
      var (row, entry) :- prepare(data[|data| - 1]);
      Success((rows + [row], entries + [entry]))
  }

  /** A successful EachRow is the one of all rows but the last, extended by the last row's. */
  lemma EachRowLast(data: seq<Row>, prepare: Row -> Result<(Row, Row), Error>)
    requires data != [] && EachRow(data, prepare).Success?
    ensures var prev := EachRow(data[..|data| - 1], prepare);
            var step := prepare(data[|data| - 1]);
            && prev.Success? && step.Success?
            && EachRow(data, prepare).value == (prev.value.0 + [step.value.0], prev.value.1 + [step.value.1])
  {
  }

  /** Each new row and each entry is what `prepare` makes of the row at the same position. */
  lemma {:induction false} EachRowAt(data: seq<Row>, prepare: Row -> Result<(Row, Row), Error>)
    requires EachRow(data, prepare).Success?
    ensures var r := EachRow(data, prepare).value;
            forall i :: 0 <= i < |data| ==> prepare(data[i]) == Success((r.0[i], r.1[i]))
    decreases |data|
  {
    if data != [] {
      var n := |data| - 1;
      var init := data[..n];
      EachRowLast(data, prepare);
      EachRowAt(init, prepare);
      var r := EachRow(data, prepare).value;
      var p := EachRow(init, prepare).value;
      var step := prepare(data[n]).value;
      assert |p.0| == n && |p.1| == n && r.0 == p.0 + [step.0] && r.1 == p.1 + [step.1];
      forall i | 0 <= i < |data|
        ensures prepare(data[i]) == Success((r.0[i], r.1[i]))
      {
        if i < n {
          assert data[i] == init[i] && r.0[i] == p.0[i] && r.1[i] == p.1[i];
        } else {
          assert r.0[i] == step.0 && r.1[i] == step.1;
        }
      }
    }
  }

  /** One more row: EachRow extends its results by the row's, or stops with the row's error. */
  lemma EachRowStep(data: seq<Row>, i: nat, prepare: Row -> Result<(Row, Row), Error>)
    requires i < |data| && EachRow(data[..i], prepare).Success?
    ensures var step := prepare(data[i]);
            var prev := EachRow(data[..i], prepare).value;
            EachRow(data[..i + 1], prepare) ==
              if step.Failure? then Failure(step.error)
              else Success((prev.0 + [step.value.0], prev.1 + [step.value.1]))
  {
    assert data[..i + 1][..i] == data[..i];
  }

  /** Once a row fails, the rows after it do not change the outcome. */
  lemma {:induction false} EachRowStops(data: seq<Row>, prepare: Row -> Result<(Row, Row), Error>, n: nat)
    requires n <= |data| && EachRow(data[..n], prepare).Failure?
    ensures EachRow(data, prepare) == EachRow(data[..n], prepare)
    decreases |data|
  {
    if n < |data| {
      var init := data[..|data| - 1];
      assert init[..n] == data[..n];
      EachRowStops(init, prepare, n);
    } else {
      assert data[..n] == data;
    }
  }

  /** PrepareRow as a function of the row alone. */
  function RowPreparer(specs: seq<M2MSpec>, removeKeys: set<string>, unique: string, re: RegexEngine)
    : Row -> Result<(Row, Row), Error>
  {
    dic => PrepareRow(dic, specs, removeKeys, unique, re)
  }

  /** Every row in turn; the first failure stops prepare_m2m. One new row and one entry per row. */
  function PrepareAll(data: seq<Row>, specs: seq<M2MSpec>, removeKeys: set<string>, unique: string, re: RegexEngine)
    : (r: Result<(seq<Row>, seq<Row>), Error>)
    ensures r.Success? ==> |r.value.0| == |data| && |r.value.1| == |data|
  {
    EachRow(data, RowPreparer(specs, removeKeys, unique, re))
  }

  /** Each new row and each entry is what PrepareRow makes of the row at the same position. */
  lemma PrepareAllRows(data: seq<Row>, specs: seq<M2MSpec>, removeKeys: set<string>, unique: string, re: RegexEngine)
    requires PrepareAll(data, specs, removeKeys, unique, re).Success?
    ensures var r := PrepareAll(data, specs, removeKeys, unique, re).value;
            forall i :: 0 <= i < |data| ==> PrepareRow(data[i], specs, removeKeys, unique, re) == Success((r.0[i], r.1[i]))
  {
    EachRowAt(data, RowPreparer(specs, removeKeys, unique, re));
  }

  /** prepare_m2m as a whole: the new rows of `data` and the entries appended to `m2m_data`. */
  function PrepareM2MSpec(data: seq<Row>, m2m: M2MArg, unique: string, re: RegexEngine): Result<(seq<Row>, seq<Row>), Error>
  {
    var specs :- Validate(m2m);
    PrepareAll(data, specs, RemoveKeys(specs), unique, re)
  }

  /**
   * After prepare_m2m no row holds an m2m field or a bool_dict key; there is
   * one m2m_data entry per row, with the row's unique value (unless an m2m
   * field has the same name) and, for each m2m field, a list of strings;
   * the list of a field whose key name was not reused by a later entry is
   * stripped and free of empty strings.
   */
  lemma PreparedRows(data: seq<Row>, m2m: M2MArg, unique: string, re: RegexEngine)
    requires PrepareM2MSpec(data, m2m, unique, re).Success?
    ensures var specs := Validate(m2m).value;
            var (rows, entries) := PrepareM2MSpec(data, m2m, unique, re).value;
            && |rows| == |data| && |entries| == |data|
            && (forall i, f :: 0 <= i < |rows| && f in RemoveKeys(specs) ==> f !in rows[i])
            && (forall i :: 0 <= i < |entries| ==> unique in data[i] && unique in entries[i])
            && (forall i :: 0 <= i < |entries| && unique !in Fields(specs) ==> entries[i][unique] == data[i][unique])
            && (forall i, f :: 0 <= i < |entries| && f in Fields(specs) ==> f in entries[i] && StrList(entries[i][f]))
            && (forall i, x :: 0 <= i < |entries| && Owner(specs, x).Some? ==>
                  Owner(specs, x).value in entries[i] && CleanList(entries[i][Owner(specs, x).value]))
  {
    var specs := Validate(m2m).value;
    var (rows, entries) := PrepareM2MSpec(data, m2m, unique, re).value;
    PrepareAllRows(data, specs, RemoveKeys(specs), unique, re);
    forall i | 0 <= i < |data|
      ensures unique in data[i] && unique in entries[i]
      ensures forall f :: f in RemoveKeys(specs) ==> f !in rows[i]
      ensures unique !in Fields(specs) ==> entries[i][unique] == data[i][unique]
      ensures forall f :: f in Fields(specs) ==> f in entries[i] && StrList(entries[i][f])
      ensures forall x :: Owner(specs, x).Some? ==> Owner(specs, x).value in entries[i] && CleanList(entries[i][Owner(specs, x).value])
    {
      assert unique in data[i];
      assert PrepareRow(data[i], specs, RemoveKeys(specs), unique, re) == Success((rows[i], entries[i]));
    }
  }

  /**
   * What prepare_m2m moves into m2m_data: row i's entry holds, under the
   * field of the last m2m entry j naming it, the list StoredList describes
   * for row i (PrepareFieldContent says what such a list holds).
   */
  lemma PreparedLists(data: seq<Row>, m2m: M2MArg, unique: string, re: RegexEngine, i: nat, j: nat)
    requires PrepareM2MSpec(data, m2m, unique, re).Success?
    requires i < |data| && LastWithField(Validate(m2m).value, j)
    ensures |PrepareM2MSpec(data, m2m, unique, re).value.1| == |data|
    ensures Validate(m2m).value[j].field in PrepareM2MSpec(data, m2m, unique, re).value.1[i]
    ensures StoredList(data[i], Validate(m2m).value, re, j,
                       PrepareM2MSpec(data, m2m, unique, re).value.1[i][Validate(m2m).value[j].field])
  {
    var specs := Validate(m2m).value;
    PrepareAllRows(data, specs, RemoveKeys(specs), unique, re);
    assert unique in data[i];
    PrepareFieldsAt(data[i], specs, re, j);
  }

  /**
   * The list moved for the first m2m entry, when no later entry has its
   * field and it does not read its own key, read off the row itself: it
   * starts with the stripped, non-empty strings of its value after remove
   * and split (a lone string wrapped), then of the truthy key_list values
   * and the truthy bool_dict names, in order; it is exactly that list
   * unless a later entry has the same key name and appends to it.
   */
  lemma FirstEntryMoved(data: seq<Row>, m2m: M2MArg, unique: string, re: RegexEngine, i: nat)
    requires PrepareM2MSpec(data, m2m, unique, re).Success?
    requires i < |data| && LastWithField(Validate(m2m).value, 0) && NoSelfReference(Validate(m2m).value[0])
    ensures |PrepareM2MSpec(data, m2m, unique, re).value.1| == |data|
    ensures Validate(m2m).value[0].field in PrepareM2MSpec(data, m2m, unique, re).value.1[i]
    ensures var spec := Validate(m2m).value[0];
            var v := PrepareM2MSpec(data, m2m, unique, re).value.1[i][spec.field];
            && Start(data[i], spec, re).Success?
            && StripAll(Gathered(Start(data[i], spec, re).value, Extra(data[i], spec))).Success?
            && v.List?
            && Strs(StripAll(Gathered(Start(data[i], spec, re).value, Extra(data[i], spec))).value) <= v.items
            && (NextWithKey(Validate(m2m).value, 0, 1).None? ==>
                  v == List(Strs(StripAll(Gathered(Start(data[i], spec, re).value, Extra(data[i], spec))).value)))
  {
    var specs := Validate(m2m).value;
    PreparedLists(data, m2m, unique, re, i, 0);
    assert specs[..0] == [];
    PrepareFieldContent(data[i], specs[0], re);
    if NextWithKey(specs, 0, 1).Some? {
      PrepareAllRows(data, specs, RemoveKeys(specs), unique, re);
      assert unique in data[i];
      PrepareFieldsReused(data[i], specs, re, 0);
    }
  }

  /** A key_name that differs from its field is not removed from the row: it keeps the cleaned list. */
  lemma KeyNameKept(dic: Row, spec: M2MSpec, unique: string, re: RegexEngine)
    requires spec.key != spec.field && spec.key !in RemoveKeys([spec])
    requires PrepareRow(dic, [spec], RemoveKeys([spec]), unique, re).Success?
    ensures var (row, entry) := PrepareRow(dic, [spec], RemoveKeys([spec]), unique, re).value;
            spec.key in row && row[spec.key] == entry[spec.field]
  {
    assert KeyNames([spec]) == {spec.key};
    assert Fields([spec]) == {spec.field};
    assert [spec][..0] == [];
  }

  // ----- item_exists and get_duplicates -----

  const UNIQUE_REQUIRED: string := "Please specify one or more fields that has to be unique (together)."

  /** `{dic.get(f, '') for f in unique}`: a list cannot go into a set. */
  function FieldValues(dic: Row, unique: seq<string>): Result<set<Value>, Error>
  {
    if exists f :: f in unique && Get(dic, f).List? then Failure(TypeError("unhashable type: 'list'"))
    else Success(set f | f in unique :: Get(dic, f))
  }

  /** The test item_exists makes on one row: same set of values, different unique value. */
  predicate Clashes(dic: Row, item: Row, unique: seq<string>, uf: string)
  {
    && FieldValues(dic, unique).Success? && FieldValues(item, unique).Success?
    && FieldValues(dic, unique) == FieldValues(item, unique)
    && uf in dic && uf in item && dic[uf] != item[uf]
  }

  /** item_exists' loop from a given row on: True at the first clash. */
  function ItemExistsFrom(data: seq<Row>, item: Row, unique: seq<string>, uf: string): Result<bool, Error>
  {
    if data == [] then Success(false)
    else
      var dv :- FieldValues(data[0], unique);
      var iv :- FieldValues(item, unique);
      if dv != iv then ItemExistsFrom(data[1..], item, unique, uf)
      else if uf !in data[0] || uf !in item then Failure(KeyError(uf))
      else if data[0][uf] != item[uf] then Success(true)
      else ItemExistsFrom(data[1..], item, unique, uf)
  }

  /** item_exists(item, *unique) */
  function ItemExistsSpec(data: seq<Row>, item: Row, unique: seq<string>, uf: string): Result<bool, Error>
  {
    if unique == [] then Failure(AssertionError(UNIQUE_REQUIRED))
    else ItemExistsFrom(data, item, unique, uf)
  }

  /** When item_exists returns, it answers whether some row clashes with the item. */
  lemma {:induction false} ItemExistsMeaning(data: seq<Row>, item: Row, unique: seq<string>, uf: string)
    requires ItemExistsFrom(data, item, unique, uf).Success?
    ensures ItemExistsFrom(data, item, unique, uf).value <==> exists i :: 0 <= i < |data| && Clashes(data[i], item, unique, uf)
  {
    if data != [] {
      var rest := ItemExistsFrom(data[1..], item, unique, uf);
      var here := Clashes(data[0], item, unique, uf);
      if !here {
        ItemExistsMeaning(data[1..], item, unique, uf);
        assert forall i :: 1 <= i < |data| ==> data[1..][i - 1] == data[i];
        assert forall i :: 0 <= i < |data| - 1 ==> data[1..][i] == data[i + 1];
      }
    }
  }

  /** The values compared depend only on which fields are named, not on their order or repetition. */
  lemma FieldValuesSetOnly(dic: Row, a: seq<string>, b: seq<string>)
    requires forall f :: f in a <==> f in b
    ensures FieldValues(dic, a) == FieldValues(dic, b)
  {
    assert (exists f :: f in a && Get(dic, f).List?) == (exists f :: f in b && Get(dic, f).List?);
    assert (set f | f in a :: Get(dic, f)) == (set f | f in b :: Get(dic, f));
  }

  /** item_exists gives the same answer for the fields named in any order. */
  lemma {:induction false} ItemExistsFieldOrder(data: seq<Row>, item: Row, a: seq<string>, b: seq<string>, uf: string)
    requires forall f :: f in a <==> f in b
    ensures ItemExistsSpec(data, item, a, uf) == ItemExistsSpec(data, item, b, uf)
  {
    if a != [] {
      assert a[0] in b;
    }
    if b != [] {
      assert b[0] in a;
    }
    if a != [] && b != [] {
      ItemsFrom(data, item, a, b, uf);
    }
  }

  lemma {:induction false} ItemsFrom(data: seq<Row>, item: Row, a: seq<string>, b: seq<string>, uf: string)
    requires forall f :: f in a <==> f in b
    ensures ItemExistsFrom(data, item, a, uf) == ItemExistsFrom(data, item, b, uf)
  {
    if data != [] {
      FieldValuesSetOnly(data[0], a, b);
      FieldValuesSetOnly(item, a, b);
      ItemsFrom(data[1..], item, a, b, uf);
    }
  }

  /**
   * Since values are compared as sets, a row whose two fields hold the
   * item's values the other way round counts as the same item.
   */
  lemma SwappedValuesClash()
    ensures ItemExistsSpec([map["a" := Str("x"), "b" := Str("y"), "id" := Str("1")]],
                           map["a" := Str("y"), "b" := Str("x"), "id" := Str("2")], ["a", "b"], "id") == Success(true)
  {
    var dic := map["a" := Str("x"), "b" := Str("y"), "id" := Str("1")];
    var item := map["a" := Str("y"), "b" := Str("x"), "id" := Str("2")];
    var unique := ["a", "b"];
    assert forall f :: f in unique <==> f == "a" || f == "b";
    assert !exists f :: f in unique && Get(dic, f).List?;
    assert !exists f :: f in unique && Get(item, f).List?;
    var dv := set f | f in unique :: Get(dic, f);
    var iv := set f | f in unique :: Get(item, f);
    assert "a" in unique && "b" in unique;
    assert Get(dic, "a") in dv && Get(dic, "b") in dv;
    assert Get(item, "a") in iv && Get(item, "b") in iv;
    assert dv == {Str("x"), Str("y")};
    assert iv == {Str("x"), Str("y")};
  }

  /** `tuple([dic.get(field, '') for field in unique])` */
  function Key(dic: Row, unique: seq<string>): (r: seq<Value>)
    ensures |r| == |unique| && forall i :: 0 <= i < |unique| ==> r[i] == Get(dic, unique[i])
  {
    seq(|unique|, i requires 0 <= i < |unique| => Get(dic, unique[i]))
  }

  /** A tuple holding a list cannot be looked up in a set. */
  predicate Hashable(key: seq<Value>)
  {
    forall i :: 0 <= i < |key| ==> key[i].Str?
  }

  /** `unique_values` and `dupes` as get_duplicates builds them. */
  datatype DupScan = DupScan(seen: set<seq<Value>>, dupes: seq<Value>)

  /** get_duplicates' loop over the rows. */
  function ScanDupes(data: seq<Row>, unique: seq<string>, uf: string): Result<DupScan, Error>
  {
    if data == [] then Success(DupScan({}, []))
    else
      var prev :- ScanDupes(data[..|data| - 1], unique, uf);
      var dic := data[|data| - 1];
      var key := Key(dic, unique);
      if !Hashable(key) then Failure(TypeError("unhashable type: 'list'"))
      else if key !in prev.seen then Success(prev.(seen := prev.seen + {key}))
      else if uf !in dic then Failure(KeyError(uf))
      else Success(prev.(dupes := prev.dupes + [dic[uf]]))
  }

  /** `set(tuple(dupes))` */
  function DupesSet(dupes: seq<Value>): Result<set<Value>, Error>
  {
    if exists i :: 0 <= i < |dupes| && dupes[i].List? then Failure(TypeError("unhashable type: 'list'"))
    else Success(set i | 0 <= i < |dupes| :: dupes[i])
  }

  /** get_duplicates(*unique) */
  function GetDuplicatesSpec(data: seq<Row>, unique: seq<string>, uf: string): Result<set<Value>, Error>
  {
    if unique == [] then Failure(AssertionError(UNIQUE_REQUIRED))
    else
      var scan :- ScanDupes(data, unique, uf);
      DupesSet(scan.dupes)
  }

  /** Row i repeats the values of an earlier row. */
  predicate HasEarlier(data: seq<Row>, unique: seq<string>, i: int)
    requires 0 <= i < |data|
  {
    exists j :: 0 <= j < i && Key(data[j], unique) == Key(data[i], unique)
  }

  /** The value tuples of the rows. */
  function SeenKeys(data: seq<Row>, unique: seq<string>): set<seq<Value>>
  {
    set i | 0 <= i < |data| :: Key(data[i], unique)
  }

  /** One more row adds its tuple; it repeats an earlier row exactly when its tuple was seen. */
  lemma SeenKeysAppend(data: seq<Row>, unique: seq<string>)
    requires data != []
    ensures SeenKeys(data, unique) == SeenKeys(data[..|data| - 1], unique) + {Key(data[|data| - 1], unique)}
    ensures HasEarlier(data, unique, |data| - 1) <==> Key(data[|data| - 1], unique) in SeenKeys(data[..|data| - 1], unique)
    ensures forall i :: 0 <= i < |data| - 1 ==> (HasEarlier(data[..|data| - 1], unique, i) <==> HasEarlier(data, unique, i))
  {
    var n := |data| - 1;
    var init := data[..n];
    assert forall i :: 0 <= i < n ==> init[i] == data[i];
    assert Key(data[n], unique) in SeenKeys(data, unique);
    forall i | 0 <= i < n ensures HasEarlier(init, unique, i) <==> HasEarlier(data, unique, i) {
      if HasEarlier(data, unique, i) {
        var j :| 0 <= j < i && Key(data[j], unique) == Key(data[i], unique);
        assert Key(init[j], unique) == Key(init[i], unique);
      }
    }
    if Key(data[n], unique) in SeenKeys(init, unique) {
      var j :| 0 <= j < n && Key(init[j], unique) == Key(data[n], unique);
      assert Key(data[j], unique) == Key(data[n], unique);
    }
  }

  /** The scan has seen the tuple of every row. */
  lemma {:induction false} ScanSeen(data: seq<Row>, unique: seq<string>, uf: string)
    requires ScanDupes(data, unique, uf).Success?
    ensures ScanDupes(data, unique, uf).value.seen == SeenKeys(data, unique)
  {
    if data != [] {
      ScanSeen(data[..|data| - 1], unique, uf);
      SeenKeysAppend(data, unique);
    }
  }

  /**
   * The scan collects the unique value of exactly the rows that repeat an
   * earlier row's values: a first occurrence is never collected for itself.
   */
  lemma {:induction false} ScanDupesMeaning(data: seq<Row>, unique: seq<string>, uf: string)
    requires ScanDupes(data, unique, uf).Success?
    ensures forall i :: 0 <= i < |data| && HasEarlier(data, unique, i) ==> uf in data[i]
    ensures forall x :: x in ScanDupes(data, unique, uf).value.dupes <==>
      exists i :: 0 <= i < |data| && HasEarlier(data, unique, i) && uf in data[i] && data[i][uf] == x
  {
    if data != [] {
      var n := |data| - 1;
      var init := data[..n];
      ScanDupesStep(data, unique, uf);
      ScanDupesMeaning(init, unique, uf);
      SeenKeysAppend(data, unique);
      assert forall i :: 0 <= i < n ==> init[i] == data[i];
      var prev := ScanDupes(init, unique, uf).value.dupes;
      var now := ScanDupes(data, unique, uf).value.dupes;
      forall i | 0 <= i < n && HasEarlier(data, unique, i) ensures uf in data[i] {
        assert HasEarlier(init, unique, i);
      }
      forall x ensures x in now <==> exists i :: 0 <= i < |data| && HasEarlier(data, unique, i) && uf in data[i] && data[i][uf] == x {
        assert x in now <==> x in prev || (HasEarlier(data, unique, n) && data[n][uf] == x);
        RepeatedLast(data, unique, uf, x);
      }
    }
  }

  /** The rows that repeat an earlier row and hold `x` under `uf`: those among all but the last, and the last itself. */
  lemma RepeatedLast(data: seq<Row>, unique: seq<string>, uf: string, x: Value)
    requires data != []
    requires forall i :: 0 <= i < |data| - 1 ==> (HasEarlier(data[..|data| - 1], unique, i) <==> HasEarlier(data, unique, i))
    ensures (exists i :: 0 <= i < |data| && HasEarlier(data, unique, i) && uf in data[i] && data[i][uf] == x) <==>
            (exists i :: 0 <= i < |data| - 1 && HasEarlier(data[..|data| - 1], unique, i) && uf in data[i] && data[i][uf] == x) ||
            (HasEarlier(data, unique, |data| - 1) && uf in data[|data| - 1] && data[|data| - 1][uf] == x)
  {
    var n := |data| - 1;
    var init := data[..n];
    if exists i :: 0 <= i < |data| && HasEarlier(data, unique, i) && uf in data[i] && data[i][uf] == x {
      var i :| 0 <= i < |data| && HasEarlier(data, unique, i) && uf in data[i] && data[i][uf] == x;
      if i < n {
        assert HasEarlier(init, unique, i);
      }
    }
    if exists i :: 0 <= i < n && HasEarlier(init, unique, i) && uf in data[i] && data[i][uf] == x {
      var i :| 0 <= i < n && HasEarlier(init, unique, i) && uf in data[i] && data[i][uf] == x;
      assert HasEarlier(data, unique, i);
    }
  }

  /** One more row: the scan collects its unique value exactly when its values repeat an earlier row's. */
  lemma ScanDupesStep(data: seq<Row>, unique: seq<string>, uf: string)
    requires data != [] && ScanDupes(data, unique, uf).Success?
    ensures ScanDupes(data[..|data| - 1], unique, uf).Success?
    ensures HasEarlier(data, unique, |data| - 1) ==> uf in data[|data| - 1]
    ensures ScanDupes(data, unique, uf).value.dupes == ScanDupes(data[..|data| - 1], unique, uf).value.dupes +
              if HasEarlier(data, unique, |data| - 1) then [data[|data| - 1][uf]] else []
  {
    ScanSeen(data[..|data| - 1], unique, uf);
    SeenKeysAppend(data, unique);
  }

  /** get_duplicates returns the unique values of the rows that repeat an earlier row's values. */
  lemma GetDuplicatesMeaning(data: seq<Row>, unique: seq<string>, uf: string)
    requires GetDuplicatesSpec(data, unique, uf).Success?
    ensures unique != []
    ensures forall x :: x in GetDuplicatesSpec(data, unique, uf).value <==>
      exists i :: 0 <= i < |data| && HasEarlier(data, unique, i) && uf in data[i] && data[i][uf] == x
  {
    ScanDupesMeaning(data, unique, uf);
    var dupes := ScanDupes(data, unique, uf).value.dupes;
    assert forall x :: x in GetDuplicatesSpec(data, unique, uf).value <==> x in dupes;
  }

  /** get_duplicates is empty when no row repeats an earlier one. */
  lemma NoRepeatNoDuplicates(data: seq<Row>, unique: seq<string>, uf: string)
    requires unique != []
    requires forall i :: 0 <= i < |data| ==> !HasEarlier(data, unique, i)
    requires forall i :: 0 <= i < |data| ==> Hashable(Key(data[i], unique))
    ensures GetDuplicatesSpec(data, unique, uf).Success?
    ensures forall x :: x !in GetDuplicatesSpec(data, unique, uf).value
  {
    NoRepeatScan(data, unique, uf);
  }

  lemma {:induction false} NoRepeatScan(data: seq<Row>, unique: seq<string>, uf: string)
    requires forall i :: 0 <= i < |data| ==> !HasEarlier(data, unique, i)
    requires forall i :: 0 <= i < |data| ==> Hashable(Key(data[i], unique))
    ensures ScanDupes(data, unique, uf).Success? && ScanDupes(data, unique, uf).value.dupes == []
  {
    if data != [] {
      var n := |data| - 1;
      var init := data[..n];
      SeenKeysAppend(data, unique);
      assert forall i :: 0 <= i < n ==> init[i] == data[i];
      forall i | 0 <= i < |init| ensures !HasEarlier(init, unique, i) {
        assert !HasEarlier(data, unique, i);
      }
      assert forall i :: 0 <= i < |init| ==> Hashable(Key(init[i], unique));
      NoRepeatScan(init, unique, uf);
      ScanSeen(init, unique, uf);
    }
  }

  // ----- The loops of prepare_m2m -----

  /** The check at the top of prepare_m2m and the loop building keys_to_remove. */
  method ValidateM2M(m2m: M2MArg) returns (r: Result<seq<M2MSpec>, Error>, keys: set<string>)
    ensures r == Validate(m2m)
    ensures r.Success? ==> keys == RemoveKeys(r.value)
  {
    keys := {};
    if !m2m.Sequence? || m2m.entries == [] || m2m.entries[0].NotDict? {
      return Validate(m2m), keys;
    }
    var entries := m2m.entries;
    var specs: seq<M2MSpec> := [];
    var i := 0;
    while i < |entries|
      invariant 0 <= i <= |entries|
      invariant ValidateAll(entries[..i]) == Success(specs)
      invariant keys == RemoveKeys(specs)
    {
      assert entries[..i + 1][..i] == entries[..i];
      var spec := ToSpec(entries[i]);
      if spec.Failure? {
        ValidateStops(entries, i + 1);
        return Failure(spec.error), keys;
      }
      var s := spec.value;
      RemoveKeysAppend(specs, s);
      keys := keys + {s.field} + FlagKeys(s);
      specs := specs + [s];
      i := i + 1;
    }
    assert entries[..i] == entries;
    r := Success(specs);
  }

  /** A failing entry stops the validation. */
  lemma {:induction false} ValidateStops(entries: seq<M2MEntry>, n: nat)
    requires n <= |entries| && ValidateAll(entries[..n]).Failure?
    ensures ValidateAll(entries) == ValidateAll(entries[..n])
    decreases |entries|
  {
    if n < |entries| {
      var init := entries[..|entries| - 1];
      assert init[..n] == entries[..n];
      ValidateStops(init, n);
    } else {
      assert entries[..n] == entries;
    }
  }

  /** The key_list and bool_dict loops, and the rest of the inner loop of prepare_m2m for one entry. */
  method PrepareFieldOnce(dic: Row, spec: M2MSpec, re: RegexEngine) returns (r: Result<Prepared, Error>)
    ensures r == PrepareField(dic, spec, re)
  {
    var key := spec.key;
    var d1 := RemoveMatches(dic, key, spec.remove, re);
    if d1.Failure? {
      return Failure(d1.error);
    }
    var d2 := SplitValue(d1.value, key, spec.split, re);
    if d2.Failure? {
      return Failure(d2.error);
    }
    var d := d2.value;
    if key !in d {
      d := d[key := List([])];
    }
    var d4 := AppendListedOnce(d, key, spec.keyList);
    if d4.Failure? {
      return Failure(d4.error);
    }
    var d5 := AppendFlagsOnce(d4.value, key, spec.flags);
    if d5.Failure? {
      return Failure(d5.error);
    }
    d := d5.value;
    var items := if d[key].List? then d[key].items else [d[key]];
    var cleaned := StripAll(items);
    if cleaned.Failure? {
      return Failure(cleaned.error);
    }
    r := Success(Prepared(d[key := List(Strs(cleaned.value))], d[key], cleaned.value));
  }

  /** The key_list loop. */
  method AppendListedOnce(dic: Row, key: string, sources: seq<string>) returns (r: Result<Row, Error>)
    requires key in dic
    ensures r == AppendListed(dic, key, sources)
  {
    var d := dic;
    var i := 0;
    while i < |sources|
      invariant 0 <= i <= |sources|
      invariant AppendListed(dic, key, sources[..i]) == Success(d)
    {
      assert sources[..i + 1][..i] == sources[..i];
      var k := sources[i];
      if k !in d {
        AppendListedStops(dic, key, sources, i + 1);
        return Failure(KeyError(k));
      }
      if IsTrue(d[k]) {
        if d[key].Str? {
          AppendListedStops(dic, key, sources, i + 1);
          return Failure(AttributeError("append"));
        }
        d := d[key := List(d[key].items + [d[k]])];
      }
      i := i + 1;
    }
    assert sources[..i] == sources;
    r := Success(d);
  }

  /** The bool_dict loop. */
  method AppendFlagsOnce(dic: Row, key: string, flags: seq<(string, string)>) returns (r: Result<Row, Error>)
    requires key in dic
    ensures r == AppendFlags(dic, key, flags)
  {
    var d := dic;
    var i := 0;
    while i < |flags|
      invariant 0 <= i <= |flags|
      invariant AppendFlags(dic, key, flags[..i]) == Success(d)
    {
      assert flags[..i + 1][..i] == flags[..i];
      var (k, name) := flags[i];
      if k !in d {
        AppendFlagsStops(dic, key, flags, i + 1);
        return Failure(KeyError(k));
      }
      if IsTrue(d[k]) {
        if d[key].Str? {
          AppendFlagsStops(dic, key, flags, i + 1);
          return Failure(AttributeError("append"));
        }
        d := d[key := List(d[key].items + [Str(name)])];
      }
      i := i + 1;
    }
    assert flags[..i] == flags;
    r := Success(d);
  }

  lemma {:induction false} AppendListedStops(dic: Row, key: string, sources: seq<string>, n: nat)
    requires key in dic && n <= |sources| && AppendListed(dic, key, sources[..n]).Failure?
    ensures AppendListed(dic, key, sources) == AppendListed(dic, key, sources[..n])
    decreases |sources|
  {
    if n < |sources| {
      var init := sources[..|sources| - 1];
      assert init[..n] == sources[..n];
      AppendListedStops(dic, key, init, n);
    } else {
      assert sources[..n] == sources;
    }
  }

  lemma {:induction false} AppendFlagsStops(dic: Row, key: string, flags: seq<(string, string)>, n: nat)
    requires key in dic && n <= |flags| && AppendFlags(dic, key, flags[..n]).Failure?
    ensures AppendFlags(dic, key, flags) == AppendFlags(dic, key, flags[..n])
    decreases |flags|
  {
    if n < |flags| {
      var init := flags[..|flags| - 1];
      assert init[..n] == flags[..n];
      AppendFlagsStops(dic, key, init, n);
    } else {
      assert flags[..n] == flags;
    }
  }

  /** The body of prepare_m2m's loop over the rows, for one row. */
  method PrepareRowOnce(dic: Row, specs: seq<M2MSpec>, removeKeys: set<string>, unique: string, re: RegexEngine)
    returns (r: Result<(Row, Row), Error>)
    ensures r == PrepareRow(dic, specs, removeKeys, unique, re)
  {
    if unique !in dic {
      return Failure(KeyError(unique));
    }
    var entry: Row := map[unique := dic[unique]];
    var d := dic;
    var lists: Row := map[];
    // holder[k]: the field whose m2m list is the list object d holds under k
    var holder: map<string, string> := map[];
    var i := 0;
    while i < |specs|
      invariant 0 <= i <= |specs|
      invariant PrepareFields(dic, specs[..i], re) == Success((d, lists))
      invariant HolderOf(specs[..i], holder)
    {
      var spec := specs[i];
      var step := PrepareFieldOnce(d, spec, re);
      if step.Failure? {
        PrepareFieldsStep(dic, specs, i, re);
        PrepareFieldsStops(dic, specs, re, i + 1);
        return Failure(step.error);
      }
      RowLoopStep(dic, specs, i, re, d, lists, holder);
      d := step.value.row;
      if spec.key in holder {
        lists := lists[holder[spec.key] := step.value.gathered];
      }
      lists := lists[spec.field := List(Strs(step.value.cleaned))];
      holder := NextHolder(holder, spec);
      i := i + 1;
    }
    assert specs[..i] == specs;
    r := Success((map k | k in d && k !in removeKeys :: d[k], entry + lists));
  }

  /** One pass of PrepareRowOnce's loop that succeeds keeps its invariant: the row and the m2m lists it builds in place are
      PrepareFields of one more entry, and `holder` still tracks which list each key name holds. */
  lemma RowLoopStep(dic: Row, specs: seq<M2MSpec>, i: nat, re: RegexEngine, d: Row, lists: Row, holder: map<string, string>)
    requires i < |specs| && PrepareFields(dic, specs[..i], re) == Success((d, lists)) && HolderOf(specs[..i], holder)
    requires PrepareField(d, specs[i], re).Success?
    ensures var step := PrepareField(d, specs[i], re).value;
            var spec := specs[i];
            spec.key in holder ==>
              PrepareFields(dic, specs[..i + 1], re) ==
                Success((step.row, lists[holder[spec.key] := step.gathered][spec.field := List(Strs(step.cleaned))]))
    ensures var step := PrepareField(d, specs[i], re).value;
            var spec := specs[i];
            spec.key !in holder ==>
              PrepareFields(dic, specs[..i + 1], re) == Success((step.row, lists[spec.field := List(Strs(step.cleaned))]))
    ensures HolderOf(specs[..i + 1], NextHolder(holder, specs[i]))
  {
    PrepareFieldsStep(dic, specs, i, re);
    HolderStep(specs, i, holder);
    assert Owner(specs[..i], specs[i].key) == if specs[i].key in holder then Some(holder[specs[i].key]) else None;
  }

  /** `holder` maps each key name to the field whose m2m list the row holds under it, as Owner does. */
  ghost predicate HolderOf(specs: seq<M2MSpec>, holder: map<string, string>) {
    forall x :: Owner(specs, x) == if x in holder then Some(holder[x]) else None
  }

  /** The loop's `holder` after one more entry: the entry's key name holds its field's list, and no other key name does. */
  function NextHolder(holder: map<string, string>, spec: M2MSpec): (r: map<string, string>)
    ensures spec.key in r && r[spec.key] == spec.field
    ensures forall x :: x in r && x != spec.key ==> x in holder && r[x] == holder[x] && r[x] != spec.field
  {
    (map x | x in holder && holder[x] != spec.field :: holder[x])[spec.key := spec.field]
  }

  /** NextHolder keeps tracking Owner: it is Owner after one more entry. */
  lemma HolderStep(specs: seq<M2MSpec>, i: nat, holder: map<string, string>)
    requires i < |specs| && HolderOf(specs[..i], holder)
    ensures HolderOf(specs[..i + 1], NextHolder(holder, specs[i]))
  {
    OwnerStep(specs, i);
  }

  /** One more entry: PrepareFields applies it to the row so far, or stops with its error. */
  lemma PrepareFieldsStep(dic: Row, specs: seq<M2MSpec>, i: nat, re: RegexEngine)
    requires i < |specs| && PrepareFields(dic, specs[..i], re).Success?
    ensures var (d, lists) := PrepareFields(dic, specs[..i], re).value;
            var step := PrepareField(d, specs[i], re);
            PrepareFields(dic, specs[..i + 1], re) ==
              if step.Failure? then Failure(step.error)
              else Success((step.value.row, StoreLists(lists, Owner(specs[..i], specs[i].key), specs[i], step.value)))
  {
    assert specs[..i + 1][..i] == specs[..i];
  }

  lemma {:induction false} PrepareFieldsStops(dic: Row, specs: seq<M2MSpec>, re: RegexEngine, n: nat)
    requires n <= |specs| && PrepareFields(dic, specs[..n], re).Failure?
    ensures PrepareFields(dic, specs, re) == PrepareFields(dic, specs[..n], re)
    decreases |specs|
  {
    if n < |specs| {
      var init := specs[..|specs| - 1];
      assert init[..n] == specs[..n];
      PrepareFieldsStops(dic, init, re, n);
    } else {
      assert specs[..n] == specs;
    }
  }

  lemma {:induction false} ScanStops(data: seq<Row>, unique: seq<string>, uf: string, n: nat)
    requires n <= |data| && ScanDupes(data[..n], unique, uf).Failure?
    ensures ScanDupes(data, unique, uf) == ScanDupes(data[..n], unique, uf)
    decreases |data|
  {
    if n < |data| {
      var init := data[..|data| - 1];
      assert init[..n] == data[..n];
      ScanStops(init, unique, uf, n);
    } else {
      assert data[..n] == data;
    }
  }

  /** prepare_m2m's loop over the rows: the new rows and the entries for m2m_data. */
  method PrepareRows(data: seq<Row>, specs: seq<M2MSpec>, removeKeys: set<string>, unique: string, re: RegexEngine)
    returns (r: Result<(seq<Row>, seq<Row>), Error>)
    ensures r == PrepareAll(data, specs, removeKeys, unique, re)
  {
    ghost var prepare := RowPreparer(specs, removeKeys, unique, re);
    var rows: seq<Row> := [];
    var entries: seq<Row> := [];
    var i := 0;
    while i < |data|
      invariant 0 <= i <= |data|
      invariant EachRow(data[..i], prepare) == Success((rows, entries))
    {
      EachRowStep(data, i, prepare);
      var step := PrepareRowOnce(data[i], specs, removeKeys, unique, re);
      if step.Failure? {
        EachRowStops(data, prepare, i + 1);
        return Failure(step.error);
      }
      rows := rows + [step.value.0];
      entries := entries + [step.value.1];
      i := i + 1;
    }
    assert data[..i] == data;
    r := Success((rows, entries));
  }

  /** The migration of one model: its rows, the m2m data split off them, and the m2m configuration. */
  class Migration {
    /** `data`: the rows to insert. */
    var data: seq<Row>
    /** `m2m_data`: one entry per prepared row. */
    var m2mData: seq<Row>
    /** `unique_field` */
    const uniqueField: string
    /** `m2m` */
    const m2m: M2MArg
    /** What the user's `remove` and `split` regexes do. */
    const re: RegexEngine

    /** A migration as its subclass configures it; m2m_data starts empty. */
    constructor (data: seq<Row>, uniqueField: string, m2m: M2MArg, re: RegexEngine)
      ensures this.data == data && m2mData == [] && this.uniqueField == uniqueField && this.m2m == m2m && this.re == re
    {
      this.data := data;
      m2mData := [];
      this.uniqueField := uniqueField;
      this.m2m := m2m;
      this.re := re;
    }

    /**
     * prepare_m2m(): each row replaced by the row without keys_to_remove,
     * and its m2m entry appended to m2m_data.
     */
    method PrepareM2M() returns (err: Option<Error>)
      modifies this`data, this`m2mData
      ensures var spec := PrepareM2MSpec(old(data), m2m, uniqueField, re);
              && (spec.Failure? ==> err == Some(spec.error))
              && (spec.Success? ==> err.None? && data == spec.value.0 && m2mData == old(m2mData) + spec.value.1)
    {
      var validated, removeKeys := ValidateM2M(m2m);
      if validated.Failure? {
        return Some(validated.error);
      }
      var prepared := PrepareRows(data, validated.value, removeKeys, uniqueField, re);
      if prepared.Failure? {
        return Some(prepared.error);
      }
      data := prepared.value.0;
      m2mData := m2mData + prepared.value.1;
      err := None;
    }

    /** item_exists(item, *unique) */
    method ItemExists(item: Row, unique: seq<string>) returns (r: Result<bool, Error>)
      ensures r == ItemExistsSpec(data, item, unique, uniqueField)
    {
      if unique == [] {
        return Failure(AssertionError(UNIQUE_REQUIRED));
      }
      var i := 0;
      while i < |data|
        invariant 0 <= i <= |data|
        invariant ItemExistsFrom(data[i..], item, unique, uniqueField) == ItemExistsFrom(data, item, unique, uniqueField)
      {
        assert data[i..][1..] == data[i + 1..];
        var dic := data[i];
        var dv := FieldValues(dic, unique);
        if dv.Failure? {
          return Failure(dv.error);
        }
        var iv := FieldValues(item, unique);
        if iv.Failure? {
          return Failure(iv.error);
        }
        if dv.value == iv.value {
          if uniqueField !in dic || uniqueField !in item {
            return Failure(KeyError(uniqueField));
          }
          if dic[uniqueField] != item[uniqueField] {
            return Success(true);
          }
        }
        i := i + 1;
      }
      r := Success(false);
    }

    /** get_duplicates(*unique) */
    method GetDuplicates(unique: seq<string>) returns (r: Result<set<Value>, Error>)
      ensures r == GetDuplicatesSpec(data, unique, uniqueField)
    {
      if unique == [] {
        return Failure(AssertionError(UNIQUE_REQUIRED));
      }
      var seen: set<seq<Value>> := {};
      var dupes: seq<Value> := [];
      var i := 0;
      while i < |data|
        invariant 0 <= i <= |data|
        invariant ScanDupes(data[..i], unique, uniqueField) == Success(DupScan(seen, dupes))
      {
        assert data[..i + 1][..i] == data[..i];
        var dic := data[i];
        var values := Key(dic, unique);
        if !Hashable(values) {
          ScanStops(data, unique, uniqueField, i + 1);
          return Failure(TypeError("unhashable type: 'list'"));
        }
        if values in seen {
          if uniqueField !in dic {
            ScanStops(data, unique, uniqueField, i + 1);
            return Failure(KeyError(uniqueField));
          }
          dupes := dupes + [dic[uniqueField]];
        } else {
          seen := seen + {values};
        }
        i := i + 1;
      }
      assert data[..i] == data;
      r := DupesSet(dupes);
    }
  }
}
