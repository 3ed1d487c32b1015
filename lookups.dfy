/**
 * Query-lookup rewriting (soupmigration/utils.py): turning
 * `field__[i]contains`, `field__[i]startswith` and `field__[i]endswith`
 * lookups into `field__[i]regex` lookups, and cutting the lookup type off a
 * key. A Python dict is given as its entries in iteration order; when two
 * entries produce the same key, the later one wins, as with dict.update.
 */
module Lookups {
  import opened Wrappers
  import opened Values

  /** The character class [A-Za-z0-9]. */
  predicate IsAlnum(c: char)
  {
    'A' <= c <= 'Z' || 'a' <= c <= 'z' || '0' <= c <= '9'
  }

  predicate AllAlnum(s: string)
  {
    forall i :: 0 <= i < |s| ==> IsAlnum(s[i])
  }

  /** The characters of s matched by [A-Za-z0-9], in order. */
  function AlnumOnly(s: string): string
  {
    if s == [] then [] else (if IsAlnum(s[0]) then [s[0]] else []) + AlnumOnly(s[1..])
  }

  function Concat(parts: seq<string>): string
  {
    if parts == [] then [] else parts[0] + Concat(parts[1..])
  }

  /** The run collected so far, as a list of zero or one match. */
  function Flush(current: string): seq<string>
  {
    if current == [] then [] else [current]
  }

  /**
   * The matches of [A-Za-z0-9]+ in s, scanning left to right while the
   * characters of the current match are collected in `current`.
   */
  function RunsFrom(s: string, current: string): seq<string>
    requires AllAlnum(current)
  {
    if s == [] then Flush(current)
    else if IsAlnum(s[0]) then RunsFrom(s[1..], current + [s[0]])
    else Flush(current) + RunsFrom(s[1..], [])
  }

  /** Every match is a non-empty alphanumeric string. */
  lemma {:induction false} RunsAreAlnum(s: string, current: string)
    requires AllAlnum(current)
    ensures forall i :: 0 <= i < |RunsFrom(s, current)| ==>
              RunsFrom(s, current)[i] != [] && AllAlnum(RunsFrom(s, current)[i])
    decreases |s|
  {
    if s == [] {
      var runs := RunsFrom(s, current);
      assert runs == Flush(current);
      forall i | 0 <= i < |runs| ensures runs[i] != [] && AllAlnum(runs[i]) {
        assert runs[i] == current;
      }
    } else if IsAlnum(s[0]) {
      var next := current + [s[0]];
      assert forall k :: 0 <= k < |next| ==> IsAlnum(next[k]);
      RunsAreAlnum(s[1..], next);
      assert RunsFrom(s, current) == RunsFrom(s[1..], next);
    } else {
      RunsAreAlnum(s[1..], []);
      var runs := RunsFrom(s, current);
      var rest := RunsFrom(s[1..], []);
      assert runs == Flush(current) + rest;
      forall i | 0 <= i < |runs| ensures runs[i] != [] && AllAlnum(runs[i]) {
        if i >= |Flush(current)| {
          assert runs[i] == rest[i - |Flush(current)|];
        } else {
          assert runs[i] == current;
        }
      }
    }
  }

  /** re.findall(r'[A-Za-z0-9]+', s): the maximal alphanumeric runs of s, left to right. */
  function AlnumRuns(s: string): (runs: seq<string>)
    ensures forall i :: 0 <= i < |runs| ==> runs[i] != [] && AllAlnum(runs[i])
  {
    RunsAreAlnum(s, []);
    RunsFrom(s, [])
  }

  /** Scanning an alphanumeric stretch extends the current match. */
  lemma {:induction false} ScanRun(run: string, rest: string, current: string)
    requires AllAlnum(run) && AllAlnum(current)
    ensures RunsFrom(run + rest, current) == RunsFrom(rest, current + run)
    decreases |run|
  {
    if run != [] {
      assert (run + rest)[1..] == run[1..] + rest;
      ScanRun(run[1..], rest, current + [run[0]]);
      assert current + [run[0]] + run[1..] == current + run;
    } else {
      assert run + rest == rest && current + run == current;
    }
  }

  /** Scanning a non-alphanumeric stretch ends the current match. */
  lemma {:induction false} ScanGap(gap: string, rest: string, current: string)
    requires gap != [] && AllAlnum(current)
    requires forall i :: 0 <= i < |gap| ==> !IsAlnum(gap[i])
    ensures RunsFrom(gap + rest, current) == Flush(current) + RunsFrom(rest, [])
    decreases |gap|
  {
    assert (gap + rest)[1..] == gap[1..] + rest;
    if |gap| > 1 {
      ScanGap(gap[1..], rest, []);
    }
  }

  /** A word followed by a gap is one match, and scanning restarts after the gap. */
  lemma WordThenGap(a: string, gap: string, rest: string)
    requires a != [] && AllAlnum(a)
    requires gap != [] && forall i :: 0 <= i < |gap| ==> !IsAlnum(gap[i])
    ensures RunsFrom(a + gap + rest, []) == [a] + RunsFrom(rest, [])
  {
    assert a + gap + rest == a + (gap + rest);
    ScanRun(a, gap + rest, []);
    assert [] + a == a;
    ScanGap(gap, rest, a);
  }

  /** A word on its own is one match. */
  lemma LastWord(c: string)
    requires c != [] && AllAlnum(c)
    ensures RunsFrom(c, []) == [c]
  {
    assert c == c + [];
    ScanRun(c, [], []);
    assert [] + c == c;
  }

  /** The runs of three alphanumeric words separated by non-alphanumeric gaps. */
  lemma ThreeRuns(a: string, gap1: string, b: string, gap2: string, c: string)
    requires a != [] && b != [] && c != [] && AllAlnum(a) && AllAlnum(b) && AllAlnum(c)
    requires gap1 != [] && forall i :: 0 <= i < |gap1| ==> !IsAlnum(gap1[i])
    requires gap2 != [] && forall i :: 0 <= i < |gap2| ==> !IsAlnum(gap2[i])
    ensures AlnumRuns(a + gap1 + b + gap2 + c) == [a, b, c]
  {
    var tail := b + gap2 + c;
    assert a + gap1 + b + gap2 + c == a + gap1 + tail;
    WordThenGap(a, gap1, tail);
    WordThenGap(b, gap2, c);
    LastWord(c);
  }

  /** The runs of two alphanumeric words separated by a non-alphanumeric gap. */
  lemma TwoRuns(a: string, gap: string, b: string)
    requires a != [] && b != [] && AllAlnum(a) && AllAlnum(b)
    requires gap != [] && forall i :: 0 <= i < |gap| ==> !IsAlnum(gap[i])
    ensures AlnumRuns(a + gap + b) == [a, b]
  {
    WordThenGap(a, gap, b);
    LastWord(b);
  }

  /** sep.join(parts) */
  function Join(parts: seq<string>, sep: string): string
  {
    if parts == [] then []
    else if |parts| == 1 then parts[0]
    else parts[0] + sep + Join(parts[1..], sep)
  }

  predicate StartsWith(s: string, prefix: string)
  {
    |prefix| <= |s| && s[..|prefix|] == prefix
  }

  predicate EndsWith(s: string, suffix: string)
  {
    |suffix| <= |s| && s[|s| - |suffix|..] == suffix
  }

  /** lookup.endswith(('contains', 'startswith', 'endswith')) */
  predicate Accepted(lookup: string)
  {
    EndsWith(lookup, "contains") || EndsWith(lookup, "startswith") || EndsWith(lookup, "endswith")
  }

  /** The key an accepted lookup is rewritten to: `field__regex` or `field__iregex`. */
  function RegexKey(field: string, lookupType: string): string
  {
    field + "__" + (if StartsWith(lookupType, "i") then "i" else "") + "regex"
  }

  /** The regex an accepted lookup's value is rewritten to. */
  function RegexPattern(lookupType: string, value: string): string
  {
    var pattern := Join(AlnumRuns(value), ".*");
    if EndsWith(lookupType, "startswith") then pattern + ".*"
    else if EndsWith(lookupType, "endswith") then ".*" + pattern
    else ".*" + pattern + ".*"
  }

  /** The body of the loop in regex_lookups for one entry: the new key and value. */
  function TranslateLookup(key: string, v: Cell): Result<(string, string), Error>
  {
    var value := Render(v);
    if !Accepted(key) then Success((key, value))
    else
      var runs := AlnumRuns(key);
      if |runs| != 2 then Failure(ValueError(key))
      else Success((RegexKey(runs[0], runs[1]), RegexPattern(runs[1], value)))
  }

  /** The argument of regex_lookups: a dict (its entries in iteration order) or anything else. */
  datatype LookupArg = LookupDict(entries: seq<(string, Cell)>) | NotADict

  /** regex_dict after the loop has run over the given entries (the first error stops it). */
  function RegexDict(entries: seq<(string, Cell)>): Result<map<string, string>, Error>
  {
    if entries == [] then Success(map[])
    else
      var acc :- RegexDict(entries[..|entries| - 1]);
      var last := entries[|entries| - 1];
      var kv :- TranslateLookup(last.0, last.1);
      Success(acc[kv.0 := kv.1])
  }

  /** Once an entry fails, the whole loop fails with that error. */
  lemma {:induction false} RegexDictStops(entries: seq<(string, Cell)>, n: nat)
    requires n <= |entries| && RegexDict(entries[..n]).Failure?
    ensures RegexDict(entries) == RegexDict(entries[..n])
    decreases |entries|
  {
    if n < |entries| {
      var init := entries[..|entries| - 1];
      assert init[..n] == entries[..n];
      RegexDictStops(init, n);
    } else {
      assert entries[..n] == entries;
    }
  }

  /** regex_lookups as a whole. */
  function RegexLookupsSpec(arg: LookupArg): Result<map<string, string>, Error>
  {
    match arg
    case NotADict => Failure(TypeError("You need to supply a dictionary."))
    case LookupDict(entries) => RegexDict(entries)
  }

  /** regex_lookups(lookup_dict), building regex_dict entry by entry. */
  method RegexLookups(arg: LookupArg) returns (r: Result<map<string, string>, Error>)
    ensures r == RegexLookupsSpec(arg)
  {
    if arg.NotADict? {
      return Failure(TypeError("You need to supply a dictionary."));
    }
    var entries := arg.entries;
    var regexDict: map<string, string> := map[];
    var i := 0;
    while i < |entries|
      invariant 0 <= i <= |entries|
      invariant RegexDict(entries[..i]) == Success(regexDict)
    {
      assert entries[..i + 1][..i] == entries[..i];
      var kv := TranslateLookup(entries[i].0, entries[i].1);
      if kv.Failure? {
        RegexDictStops(entries, i + 1);
        return Failure(kv.error);
      }
      regexDict := regexDict[kv.value.0 := kv.value.1];
      i := i + 1;
    }
    assert entries[..i] == entries;
    r := Success(regexDict);
  }

  // ----- Properties of the translation -----

  /** A non-dict argument raises TypeError. */
  lemma NotADictRaises()
    ensures RegexLookupsSpec(NotADict).Failure?
    ensures RegexLookupsSpec(NotADict).error.TypeError?
  {
  }

  /** A key that does not end in an accepted lookup type is kept; its value is rendered as a string. */
  lemma PassThrough(key: string, v: Cell)
    requires !Accepted(key)
    ensures TranslateLookup(key, v) == Success((key, Render(v)))
  {
  }

  /**
   * An accepted key must consist of exactly two alphanumeric runs, field and
   * lookup type; it becomes `field__regex`, or `field__iregex` when the
   * lookup type starts with "i". Otherwise unpacking the runs raises ValueError.
   */
  lemma AcceptedKey(key: string, v: Cell)
    requires Accepted(key)
    ensures TranslateLookup(key, v).Success? <==> |AlnumRuns(key)| == 2
    ensures TranslateLookup(key, v).Failure? ==> TranslateLookup(key, v).error.ValueError?
    ensures |AlnumRuns(key)| == 2 ==>
      var runs := AlnumRuns(key);
      TranslateLookup(key, v).value.0 ==
        runs[0] + (if runs[1][0] == 'i' then "__iregex" else "__regex")
  {
  }

  /**
   * The regex value of an accepted key: the alphanumeric runs of the value
   * joined by ".*", with ".*" appended for startswith, prepended for
   * endswith and on both sides for contains; no ^ or $ anchor is added.
   */
  lemma Wildcards(key: string, v: Cell)
    requires Accepted(key) && |AlnumRuns(key)| == 2
    ensures var pattern := Join(AlnumRuns(Render(v)), ".*");
            var regex := TranslateLookup(key, v).value.1;
            && (EndsWith(key, "startswith") ==> regex == pattern + ".*")
            && (EndsWith(key, "endswith") ==> regex == ".*" + pattern)
            && (EndsWith(key, "contains") ==> regex == ".*" + pattern + ".*")
  {
    var runs := AlnumRuns(key);
    var value := Render(v);
    assert TranslateLookup(key, v) == Success((RegexKey(runs[0], runs[1]), RegexPattern(runs[1], value)));
    LastRunKeepsSuffix(key, "startswith");
    LastRunKeepsSuffix(key, "endswith");
    LastRunKeepsSuffix(key, "contains");
    OneSuffix(key);
    PatternShape(runs[1], value);
  }

  /** The accepted lookup types are alphanumeric words. */
  lemma SuffixesAlnum()
    ensures AllAlnum("startswith") && AllAlnum("endswith") && AllAlnum("contains")
  {
  }

  /** The lookup type of a two-run key ends as the key does. */
  lemma LastRunKeepsSuffix(key: string, suffix: string)
    requires suffix == "startswith" || suffix == "endswith" || suffix == "contains"
    requires |AlnumRuns(key)| == 2
    ensures EndsWith(key, suffix) ==> EndsWith(AlnumRuns(key)[1], suffix)
  {
    SuffixesAlnum();
    if EndsWith(key, suffix) {
      assert [] + key == key;
      LastRunSuffix(key, [], suffix);
    }
  }

  /** The wildcards RegexPattern puts around the joined runs, by lookup type. */
  lemma PatternShape(lookupType: string, value: string)
    ensures var pattern := Join(AlnumRuns(value), ".*");
            && (EndsWith(lookupType, "startswith") ==> RegexPattern(lookupType, value) == pattern + ".*")
            && (EndsWith(lookupType, "endswith") ==> RegexPattern(lookupType, value) == ".*" + pattern)
            && (EndsWith(lookupType, "contains") ==> RegexPattern(lookupType, value) == ".*" + pattern + ".*")
  {
    OneSuffix(lookupType);
  }

  /** A string ends in at most one of the accepted lookup types. */
  lemma OneSuffix(s: string)
    ensures EndsWith(s, "startswith") ==> !EndsWith(s, "endswith") && !EndsWith(s, "contains")
    ensures EndsWith(s, "endswith") ==> !EndsWith(s, "contains")
  {
    if EndsWith(s, "startswith") {
      assert s[|s| - 8] == s[|s| - 10..][2] == 'a';
      assert s[|s| - 1] == 'h';
    }
    if EndsWith(s, "endswith") {
      assert s[|s| - 1] == 'h';
    }
  }

  /** When the scanned text ends in an alphanumeric suffix, so does the last run. */
  lemma {:induction false} LastRunSuffix(s: string, current: string, suffix: string)
    requires suffix != [] && AllAlnum(suffix) && AllAlnum(current)
    requires EndsWith(current + s, suffix)
    ensures var runs := RunsFrom(s, current); |runs| > 0 && EndsWith(runs[|runs| - 1], suffix)
    decreases |s|
  {
    if s == [] {
      assert current + s == current;
    } else if IsAlnum(s[0]) {
      assert current + [s[0]] + s[1..] == current + s;
      LastRunSuffix(s[1..], current + [s[0]], suffix);
    } else {
      var whole := current + s;
      assert whole[|current|] == s[0];
      assert |whole| - |suffix| > |current| by {
        forall k | |whole| - |suffix| <= k < |whole|
          ensures IsAlnum(whole[k])
        {
          assert whole[k] == suffix[k - (|whole| - |suffix|)];
        }
      }
      assert ([] + s[1..])[|s| - 1 - |suffix|..] == whole[|whole| - |suffix|..];
      LastRunSuffix(s[1..], [], suffix);
    }
  }

  /** The runs hold exactly the alphanumeric characters of s, in order: nothing else survives. */
  lemma {:induction false} RunsKeepAlnum(s: string, current: string)
    requires AllAlnum(current)
    ensures Concat(RunsFrom(s, current)) == current + AlnumOnly(s)
    decreases |s|
  {
    if s == [] {
      assert current + [] == current;
    } else if IsAlnum(s[0]) {
      var next := current + [s[0]];
      assert forall k :: 0 <= k < |next| ==> IsAlnum(next[k]);
      RunsKeepAlnum(s[1..], next);
      assert RunsFrom(s, current) == RunsFrom(s[1..], next);
      assert AlnumOnly(s) == [s[0]] + AlnumOnly(s[1..]);
      assert next + AlnumOnly(s[1..]) == current + AlnumOnly(s);
    } else {
      RunsKeepAlnum(s[1..], []);
      assert RunsFrom(s, current) == Flush(current) + RunsFrom(s[1..], []);
      ConcatAppend(Flush(current), RunsFrom(s[1..], []));
      assert Concat(Flush(current)) == current by {
        if current != [] { assert Concat([current][1..]) == []; }
      }
      assert AlnumOnly(s) == [] + AlnumOnly(s[1..]) == AlnumOnly(s[1..]);
    }
  }

  lemma {:induction false} ConcatAppend(a: seq<string>, b: seq<string>)
    ensures Concat(a + b) == Concat(a) + Concat(b)
    decreases |a|
  {
    if a != [] {
      assert (a + b)[1..] == a[1..] + b;
      ConcatAppend(a[1..], b);
    } else {
      assert a + b == b;
    }
  }

  /** The example of the documentation: name__istartswith='the .lookup/value'. */
  lemma DocExample()
    ensures RegexLookupsSpec(LookupDict([("name__istartswith", Text("the .lookup/value"))]))
         == Success(map["name__iregex" := "the.*lookup.*value.*"])
  {
    DocTranslate("name__istartswith", "the .lookup/value");
    var entries := [("name__istartswith", Text("the .lookup/value"))];
    assert entries[..0] == [];
  }

  lemma DocTranslate(key: string, value: string)
    requires key == "name__istartswith" && value == "the .lookup/value"
    ensures TranslateLookup(key, Text(value)) == Success(("name__iregex", "the.*lookup.*value.*"))
  {
    DocKeyRuns(key);
    DocPattern(value);
    assert StartsWith("istartswith", "i");
    assert RegexKey("name", "istartswith") == "name" + "__" + "i" + "regex" == "name__iregex";
  }

  lemma DocPattern(value: string)
    requires value == "the .lookup/value"
    ensures RegexPattern("istartswith", value) == "the.*lookup.*value.*"
  {
    DocValueRuns(value);
    var runs := ["the", "lookup", "value"];
    assert Join(runs[2..], ".*") == "value";
    assert Join(runs[1..], ".*") == "lookup.*value";
    assert Join(runs, ".*") == "the.*lookup.*value";
    assert EndsWith("istartswith", "startswith");
    assert "the.*lookup.*value" + ".*" == "the.*lookup.*value.*";
  }

  lemma DocKeyRuns(key: string)
    requires key == "name__istartswith"
    ensures Accepted(key) && AlnumRuns(key) == ["name", "istartswith"]
  {
    assert key[|key| - 10..] == "startswith";
    assert EndsWith(key, "startswith");
    NameRuns(key);
  }

  lemma NameRuns(key: string)
    requires key == "name__istartswith"
    ensures AlnumRuns(key) == ["name", "istartswith"]
  {
    var field, gap, lookup := "name", "__", "istartswith";
    assert AllAlnum(field) && AllAlnum(lookup);
    assert key == field + gap + lookup;
    TwoRuns(field, gap, lookup);
  }

  lemma DocValueRuns(value: string)
    requires value == "the .lookup/value"
    ensures AlnumRuns(value) == ["the", "lookup", "value"]
  {
    assert value == "the" + " ." + "lookup" + "/" + "value";
    ThreeRuns("the", " .", "lookup", "/", "value");
  }

  /** A field name containing an underscore yields three runs, so unpacking fails. */
  lemma UnderscoreFieldFails(key: string)
    requires key == "first_name__contains"
    ensures TranslateLookup(key, Text("x")) == Failure(ValueError(key))
  {
    var a, gap1, b, gap2, c := "first", "_", "name", "__", "contains";
    assert AllAlnum(a) && AllAlnum(b) && AllAlnum(c);
    assert key == a + gap1 + b + gap2 + c;
    ThreeRuns(a, gap1, b, gap2, c);
  }

  // ----- remove_lookup_type -----

  /** Index of the first newline in s, or |s|: where the match of '.*' ends. */
  function LineEnd(s: string): (n: nat)
    ensures n <= |s|
    ensures forall k :: 0 <= k < n ==> s[k] != '\n'
    ensures n == |s| || s[n] == '\n'
  {
    if s == [] || s[0] == '\n' then 0 else 1 + LineEnd(s[1..])
  }

  /**
   * re.sub('__.*', '', k): every match of "__" followed by the rest of its
   * line is removed, scanning left to right.
   */
  function CutLookupType(k: string): (r: string)
    ensures r == [] || (r[0] == '\n' && StartsWith(k, "__")) || (k != [] && r[0] == k[0] && !StartsWith(k, "__"))
    decreases |k|
  {
    if k == [] then []
    else if StartsWith(k, "__") then CutLookupType(k[LineEnd(k)..])
    else [k[0]] + CutLookupType(k[1..])
  }

  /** s contains no "__". */
  predicate NoDoubleUnderscore(s: string)
  {
    forall i :: 0 <= i < |s| - 1 && s[i] == '_' ==> s[i + 1] != '_'
  }

  /** The cut key contains no "__". */
  lemma {:induction false} CutHasNoDoubleUnderscore(k: string)
    ensures NoDoubleUnderscore(CutLookupType(k))
    decreases |k|
  {
    if k == [] {
    } else if StartsWith(k, "__") {
      CutHasNoDoubleUnderscore(k[LineEnd(k)..]);
    } else {
      CutHasNoDoubleUnderscore(k[1..]);
      var rest := CutLookupType(k[1..]);
      var r := [k[0]] + rest;
      forall i | 0 <= i < |r| - 1 && r[i] == '_'
        ensures r[i + 1] != '_'
      {
        if i > 0 {
          assert rest[i - 1] == '_';
        }
      }
    }
  }

  /** A key without "__" is left unchanged. */
  lemma {:induction false} CutWithoutDoubleUnderscore(k: string)
    requires NoDoubleUnderscore(k)
    ensures CutLookupType(k) == k
    decreases |k|
  {
    if k != [] {
      assert !StartsWith(k, "__") by {
        assert |k| >= 2 ==> k[..2][0] == k[0] && k[..2][1] == k[1];
      }
      assert forall i :: 0 <= i < |k| - 1 ==> k[1..][i] == k[i + 1];
      CutWithoutDoubleUnderscore(k[1..]);
    }
  }

  /** A key without line breaks is cut at its first "__". */
  lemma {:induction false} CutAtFirst(k: string, i: nat)
    requires i + 2 <= |k| && k[i] == '_' && k[i + 1] == '_'
    requires forall j :: 0 <= j < i && k[j] == '_' ==> k[j + 1] != '_'
    requires forall j :: 0 <= j < |k| ==> k[j] != '\n'
    ensures CutLookupType(k) == k[..i]
    decreases i
  {
    if i == 0 {
      assert StartsWith(k, "__");
      assert LineEnd(k) == |k|;
    } else {
      assert !StartsWith(k, "__") by {
        assert k[..2][0] == k[0] && k[..2][1] == k[1];
      }
      CutAtFirst(k[1..], i - 1);
      assert [k[0]] + k[1..][..i - 1] == k[..i];
    }
  }

  /** remove_lookup_type(lookup_dict): keys cut, values kept, later entries win. */
  function RemoveLookupType<V>(entries: seq<(string, V)>): (r: map<string, V>)
    ensures forall key :: key in r ==> NoDoubleUnderscore(key)
  {
    if entries == [] then map[]
    else
      var last := entries[|entries| - 1];
      CutHasNoDoubleUnderscore(last.0);
      RemoveLookupType(entries[..|entries| - 1])[CutLookupType(last.0) := last.1]
  }

  /** dict(entries): the dict whose iteration gives these entries. */
  function ToMap<V>(entries: seq<(string, V)>): map<string, V>
  {
    if entries == [] then map[]
    else ToMap(entries[..|entries| - 1])[entries[|entries| - 1].0 := entries[|entries| - 1].1]
  }

  lemma {:induction false} ToMapKeys<V>(entries: seq<(string, V)>)
    ensures forall key :: key in ToMap(entries) ==> exists i :: 0 <= i < |entries| && entries[i].0 == key
  {
    if entries != [] {
      var init := entries[..|entries| - 1];
      ToMapKeys(init);
      forall key | key in ToMap(entries)
        ensures exists i :: 0 <= i < |entries| && entries[i].0 == key
      {
        if key != entries[|entries| - 1].0 {
          assert key in ToMap(init);
          var i :| 0 <= i < |init| && init[i].0 == key;
          assert entries[i].0 == key;
        }
      }
    }
  }

  /** Every entry's key is a key of the dict built from the entries. */
  lemma {:induction false} ToMapHasKeys<V>(entries: seq<(string, V)>)
    ensures forall i :: 0 <= i < |entries| ==> entries[i].0 in ToMap(entries)
  {
    if entries != [] {
      var init := entries[..|entries| - 1];
      ToMapHasKeys(init);
      assert forall i :: 0 <= i < |init| ==> entries[i] == init[i];
    }
  }

  /** Keys without "__" are kept as they are. */
  lemma {:induction false} RemoveKeepsPlainKeys<V>(entries: seq<(string, V)>)
    requires forall i :: 0 <= i < |entries| ==> NoDoubleUnderscore(entries[i].0)
    ensures RemoveLookupType(entries) == ToMap(entries)
  {
    if entries != [] {
      RemoveKeepsPlainKeys(entries[..|entries| - 1]);
      CutWithoutDoubleUnderscore(entries[|entries| - 1].0);
    }
  }

  /**
   * remove_lookup_type is idempotent: applied to any dict holding its own
   * result, in whatever iteration order, it gives that result back.
   */
  lemma RemoveLookupTypeIdempotent<V>(entries: seq<(string, V)>, again: seq<(string, V)>)
    requires ToMap(again) == RemoveLookupType(entries)
    ensures RemoveLookupType(again) == RemoveLookupType(entries)
  {
    ToMapHasKeys(again);
    RemoveKeepsPlainKeys(again);
  }

  /** The value of each entry survives under its cut key unless a later entry has the same cut key. */
  lemma {:induction false} RemoveKeepsValues<V>(entries: seq<(string, V)>, i: nat)
    requires i < |entries|
    requires forall j :: i < j < |entries| ==> CutLookupType(entries[j].0) != CutLookupType(entries[i].0)
    ensures CutLookupType(entries[i].0) in RemoveLookupType(entries)
    ensures RemoveLookupType(entries)[CutLookupType(entries[i].0)] == entries[i].1
    decreases |entries|
  {
    if i < |entries| - 1 {
      RemoveKeepsValues(entries[..|entries| - 1], i);
    }
  }

  /**
   * What regex_lookups produces loses its lookup type again under
   * remove_lookup_type: an accepted key `field__type` ends up as `field`.
   */
  lemma RegexKeyCut(key: string, v: Cell)
    requires Accepted(key) && |AlnumRuns(key)| == 2
    ensures CutLookupType(TranslateLookup(key, v).value.0) == AlnumRuns(key)[0]
  {
    var runs := AlnumRuns(key);
    assert TranslateLookup(key, v).value.0 == RegexKey(runs[0], runs[1]);
    CutRegexKey(runs[0], runs[1]);
  }

  /** A regex key built on an alphanumeric field is cut back to that field. */
  lemma CutRegexKey(field: string, lookupType: string)
    requires AllAlnum(field)
    ensures CutLookupType(RegexKey(field, lookupType)) == field
  {
    var k := RegexKey(field, lookupType);
    var tail := (if StartsWith(lookupType, "i") then "i" else "") + "regex";
    assert k == field + ("__" + tail);
    assert k[..|field|] == field;
    assert k[|field|] == '_' && k[|field| + 1] == '_';
    forall j | 0 <= j < |k|
      ensures k[j] != '\n'
    {
      if j < |field| { assert k[j] == field[j]; }
    }
    forall j | 0 <= j < |field|
      ensures k[j] != '_'
    {
      assert k[j] == field[j];
    }
    CutAtFirst(k, |field|);
  }
}
