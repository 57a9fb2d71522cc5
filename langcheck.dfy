/** The language-file check: a translation must have every key of the English file, and
    each of its texts the same number of `{}` placeholders as the English text. */
module LangCheck {
  import opened Wrappers

  /** A JSON object of strings as Python loads it: its keys in file order, and their texts.
      A loaded dict has distinct keys; the check itself does not depend on that, and the
      lemmas below that do (`Distinct`) say so. */
  datatype OrderedDict = OrderedDict(keys: seq<string>, values: map<string, string>)

  /** The key sequence and the map describe the same keys. */
  predicate WellFormed(d: OrderedDict) {
    && (forall k :: k in d.keys ==> k in d.values)
    && (forall k :: k in d.values ==> k in d.keys)
  }

  /** `s.count(pat)`: occurrences of `pat`, scanning left to right and resuming after each
      match, so that matches never overlap. */
  function CountOccurrences(s: string, pat: string): nat
    requires |pat| > 0
    decreases |s|
  {
    if |s| < |pat| then 0
    else if s[..|pat|] == pat then 1 + CountOccurrences(s[|pat|..], pat)
    else CountOccurrences(s[1..], pat)
  }

  /** The occurrences counted are disjoint, so together they fit in the string. */
  lemma {:induction false} CountOccurrencesFits(s: string, pat: string)
    requires |pat| > 0
    ensures CountOccurrences(s, pat) * |pat| <= |s|
    decreases |s|
  {
    if |s| >= |pat| {
      if s[..|pat|] == pat {
        CountOccurrencesFits(s[|pat|..], pat);
      } else {
        CountOccurrencesFits(s[1..], pat);
      }
    }
  }

  const Placeholder: string := "{}"

  /** `text.count("{}")`: the same left-to-right scan, written for the two-character pattern. */
  function BracketCount(text: string): nat {
    if |text| < 2 then 0
    else if text[0] == '{' && text[1] == '}' then 1 + BracketCount(text[2..])
    else BracketCount(text[1..])
  }

  /** The bracket count is Python's `count` of the placeholder. */
  lemma {:induction false} BracketCountIsCount(s: string)
    ensures BracketCount(s) == CountOccurrences(s, Placeholder)
  {
    if |s| >= 2 {
      assert s[..2] == Placeholder <==> s[0] == '{' && s[1] == '}' by {
        if s[0] == '{' && s[1] == '}' {
          assert s[..2] == [s[0], s[1]];
        }
      }
      if s[0] == '{' && s[1] == '}' {
        BracketCountIsCount(s[2..]);
      } else {
        BracketCountIsCount(s[1..]);
      }
    }
  }

  /** Reference count: every position where `{` is directly followed by `}`. */
  function AdjacentPairs(s: string): nat {
    if |s| < 2 then 0
    else (if s[0] == '{' && s[1] == '}' then 1 else 0) + AdjacentPairs(s[1..])
  }

  /** Two occurrences of `{}` can never overlap, so the non-overlapping count is the number
      of positions where the placeholder starts. */
  lemma {:induction false} BracketCountIsAdjacentPairs(s: string)
    ensures BracketCount(s) == AdjacentPairs(s)
  {
    if |s| >= 2 {
      if s[0] == '{' && s[1] == '}' {
        BracketCountIsAdjacentPairs(s[2..]);
        assert s[1..][1..] == s[2..];
      } else {
        BracketCountIsAdjacentPairs(s[1..]);
      }
    }
  }


  /** The keys of `keys` present in both maps whose texts differ in their bracket counts,
      in the order of `keys`. */
  function MismatchKeys(keys: seq<string>, lang: map<string, string>, eng: map<string, string>): seq<string> {
    if keys == [] then []
    else
      var k := keys[|keys| - 1];
      MismatchKeys(keys[..|keys| - 1], lang, eng)
        + (if k in lang && k in eng && BracketCount(lang[k]) != BracketCount(eng[k]) then [k] else [])
  }

  /** The keys of `keys` missing from `lang`, in the order of `keys`. */
  function MissingIn(keys: seq<string>, lang: map<string, string>): seq<string> {
    if keys == [] then []
    else
      var k := keys[|keys| - 1];
      MissingIn(keys[..|keys| - 1], lang) + (if k !in lang then [k] else [])
  }

  /** One more key extends the mismatch list by that key when its counts differ. */
  lemma MismatchKeysSnoc(keys: seq<string>, i: nat, lang: map<string, string>, eng: map<string, string>)
    requires i < |keys|
    ensures MismatchKeys(keys[..i + 1], lang, eng) == MismatchKeys(keys[..i], lang, eng)
      + (if keys[i] in lang && keys[i] in eng && BracketCount(lang[keys[i]]) != BracketCount(eng[keys[i]]) then [keys[i]] else [])
  {
    assert keys[..i + 1][..i] == keys[..i];
  }

  /** One more key extends the missing list by that key when `lang` lacks it. */
  lemma MissingInSnoc(keys: seq<string>, i: nat, lang: map<string, string>)
    requires i < |keys|
    ensures MissingIn(keys[..i + 1], lang) == MissingIn(keys[..i], lang) + (if keys[i] !in lang then [keys[i]] else [])
  {
    assert keys[..i + 1][..i] == keys[..i];
  }

  predicate Distinct(s: seq<string>) {
    forall i, j :: 0 <= i < j < |s| ==> s[i] != s[j]
  }

  /** The mismatch list holds exactly the present keys whose counts differ, each once. */
  lemma {:induction false} MismatchKeysExact(keys: seq<string>, lang: map<string, string>, eng: map<string, string>)
    ensures forall k :: k in MismatchKeys(keys, lang, eng) <==>
      k in keys && k in lang && k in eng && BracketCount(lang[k]) != BracketCount(eng[k])
    ensures Distinct(keys) ==> Distinct(MismatchKeys(keys, lang, eng))
  {
    if keys != [] {
      var init := keys[..|keys| - 1];
      assert keys == init + [keys[|keys| - 1]];
      MismatchKeysExact(init, lang, eng);
    }
  }

  /** The missing list holds exactly the keys absent from `lang`, each once. */
  lemma {:induction false} MissingInExact(keys: seq<string>, lang: map<string, string>)
    ensures forall k :: k in MissingIn(keys, lang) <==> k in keys && k !in lang
    ensures Distinct(keys) ==> Distinct(MissingIn(keys, lang))
  {
    if keys != [] {
      var init := keys[..|keys| - 1];
      assert keys == init + [keys[|keys| - 1]];
      MissingInExact(init, lang);
    }
  }

  /** No mismatch is listed exactly when every present key has the English bracket count. */
  lemma MismatchKeysEmpty(keys: seq<string>, lang: map<string, string>, eng: map<string, string>)
    ensures MismatchKeys(keys, lang, eng) == [] <==>
      forall k :: k in keys && k in lang && k in eng ==> BracketCount(lang[k]) == BracketCount(eng[k])
  {
    MismatchKeysExact(keys, lang, eng);
    var m := MismatchKeys(keys, lang, eng);
    if m != [] {
      assert m[0] in m;
    }
  }

  /** No key is listed missing exactly when `lang` has them all. */
  lemma MissingInEmpty(keys: seq<string>, lang: map<string, string>)
    ensures MissingIn(keys, lang) == [] <==> forall k :: k in keys ==> k in lang
  {
    MissingInExact(keys, lang);
    var m := MissingIn(keys, lang);
    if m != [] {
      assert m[0] in m;
    }
  }

  /** What `is_valid` prints, as data: the shown language name and the verdict. */
  datatype Verdict = Passed | BracketsMismatch(keys: seq<string>) | MissingKeys(keys: seq<string>)
  datatype Report = Report(name: string, verdict: Verdict) {
    /** The boolean `is_valid` returns. */
    predicate Valid() {
      verdict.Passed?
    }
  }

  /** A two-letter language name is padded with three spaces so the report lines align. */
  function ShownName(langname: string): (r: string)
    ensures |r| == (if |langname| == 2 then 5 else |langname|)
    ensures r[..|langname|] == langname
    ensures forall k :: |langname| <= k < |r| ==> r[k] == ' '
  {
    if |langname| == 2 then langname + "   " else langname
  }

  /** The verdict once every key is known to be present: the bracket mismatches when there
      are any, else a pass. */
  function BracketsVerdict(keys: seq<string>, lang: map<string, string>, eng: map<string, string>): Verdict {
    var mismatch := MismatchKeys(keys, lang, eng);
    if mismatch != [] then BracketsMismatch(mismatch) else Passed
  }

  /** The bracket check passes exactly when every present key has the English bracket count. */
  lemma BracketsVerdictPasses(keys: seq<string>, lang: map<string, string>, eng: map<string, string>)
    requires forall k :: k in keys ==> k in eng
    ensures BracketsVerdict(keys, lang, eng).Passed? <==> forall k :: k in keys && k in lang ==>
      BracketCount(lang[k]) == BracketCount(eng[k])
  {
    MismatchKeysEmpty(keys, lang, eng);
  }

  /** The verdict of the corrected check: the missing keys when there are any, else the
      bracket verdict. */
  function IntendedVerdict(keys: seq<string>, lang: map<string, string>, eng: map<string, string>): Verdict {
    var missing := MissingIn(keys, lang);
    if missing != [] then MissingKeys(missing) else BracketsVerdict(keys, lang, eng)
  }

  /** The corrected check passes exactly when every key is present in both maps with the
      same bracket count. */
  lemma IntendedVerdictPasses(keys: seq<string>, lang: map<string, string>, eng: map<string, string>)
    requires forall k :: k in keys ==> k in eng
    ensures IntendedVerdict(keys, lang, eng).Passed? <==> forall k :: k in keys ==>
      k in lang && BracketCount(lang[k]) == BracketCount(eng[k])
  {
    BracketsVerdictPasses(keys, lang, eng);
    MissingInEmpty(keys, lang);
  }

  /** `is_valid` as written. A key missing from `lang` is recorded, but `lang[key]` then raises
      KeyError before the report of missing keys is reached. */
  method IsValid(langname: string, lang: map<string, string>, englang: OrderedDict) returns (res: Outcome<Report>)
    requires WellFormed(englang)
    ensures res.RaisesKeyError? <==> exists k :: k in englang.keys && k !in lang
    ensures res.RaisesKeyError? ==>
      exists i :: 0 <= i < |englang.keys| && englang.keys[i] == res.key && res.key !in lang &&
        forall j :: 0 <= j < i ==> englang.keys[j] in lang
    ensures res.Returns? ==> res.value.name == ShownName(langname)
    ensures res.Returns? ==> res.value.verdict == BracketsVerdict(englang.keys, lang, englang.values)
    ensures res.Returns? ==> (res.value.Valid() <==>
      forall k :: k in englang.keys ==> BracketCount(lang[k]) == BracketCount(englang.values[k]))
  {
    var missingKeys: seq<string> := [];
    var mismatchKeys: seq<string> := [];
    for i := 0 to |englang.keys|
      invariant missingKeys == []
      invariant forall j :: 0 <= j < i ==> englang.keys[j] in lang
      invariant mismatchKeys == MismatchKeys(englang.keys[..i], lang, englang.values)
    {
      var key := englang.keys[i];
      MismatchKeysSnoc(englang.keys, i, lang, englang.values);
      if key !in lang {
        missingKeys := missingKeys + [key];
      }
      var numExpectedBrackets := BracketCount(englang.values[key]);
      if key !in lang {
        return RaisesKeyError(key);
      }
      var numBrackets := BracketCount(lang[key]);
      if numBrackets != numExpectedBrackets {
        mismatchKeys := mismatchKeys + [key];
      }
    }
    assert englang.keys[..|englang.keys|] == englang.keys;
    var verdict: Verdict;
    if |missingKeys| == 0 {
      if |mismatchKeys| == 0 {
        verdict := Passed;
      } else {
        verdict := BracketsMismatch(mismatchKeys);
      }
    } else {
      assert false;
    }
    assert verdict == BracketsVerdict(englang.keys, lang, englang.values);
    BracketsVerdictPasses(englang.keys, lang, englang.values);
    return Returns(Report(ShownName(langname), verdict));
  }

  /** `is_valid` as evidently intended: a missing key is recorded and its bracket count is
      skipped, so the missing keys are reported instead of raising. */
  method IsValidReportingMissing(langname: string, lang: map<string, string>, englang: OrderedDict)
    returns (report: Report)
    requires WellFormed(englang)
    ensures report.name == ShownName(langname)
    ensures report.verdict == IntendedVerdict(englang.keys, lang, englang.values)
    ensures report.Valid() <==> forall k :: k in englang.keys ==>
      k in lang && BracketCount(lang[k]) == BracketCount(englang.values[k])
  {
    var missingKeys: seq<string> := [];
    var mismatchKeys: seq<string> := [];
    for i := 0 to |englang.keys|
      invariant missingKeys == MissingIn(englang.keys[..i], lang)
      invariant mismatchKeys == MismatchKeys(englang.keys[..i], lang, englang.values)
    {
      var key := englang.keys[i];
      MismatchKeysSnoc(englang.keys, i, lang, englang.values);
      MissingInSnoc(englang.keys, i, lang);
      if key !in lang {
        missingKeys := missingKeys + [key];
        continue;
      }
      var numExpectedBrackets := BracketCount(englang.values[key]);
      var numBrackets := BracketCount(lang[key]);
      if numBrackets != numExpectedBrackets {
        mismatchKeys := mismatchKeys + [key];
      }
    }
    assert englang.keys[..|englang.keys|] == englang.keys;
    var verdict: Verdict;
    if |missingKeys| == 0 {
      if |mismatchKeys| == 0 {
        verdict := Passed;
      } else {
        verdict := BracketsMismatch(mismatchKeys);
      }
    } else {
      verdict := MissingKeys(missingKeys);
    }
    assert verdict == IntendedVerdict(englang.keys, lang, englang.values);
    IntendedVerdictPasses(englang.keys, lang, englang.values);
    return Report(ShownName(langname), verdict);
  }
}
