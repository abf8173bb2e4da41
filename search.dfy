/**
 * Free-text search over the entries of an exported environment: an
 * entry is reported when at least one of its string-valued locale values
 * contains the search string, both lower-cased; the report lists, per
 * field, the locales that matched, and carries the entry's ID, content
 * type, title and a web URL derived from its URN.
 *
 * Lower-casing is locale-aware in the source; here it is the parameter
 * `lower`. The web application's base URL is the parameter `baseUrl`.
 */
module Search {
  import opened Wrappers
  import opened Content

  /** An exported entry: `sys.id`, `sys.urn`, `sys.contentType.sys.id` and its fields. */
  datatype Entry = Entry(id: string, urn: string, contentType: string, fields: seq<Field>)

  /** One reported entry; `matches` maps a field name to the locales that matched in it. */
  datatype SearchResult = SearchResult(
    entryId: string,
    urn: string,
    matches: map<string, seq<string>>,
    contentType: string,
    title: Option<Value>)

  /** `sub` occurs in `s` starting at index `i`. */
  predicate OccursAt(s: string, sub: string, i: int)
  {
    0 <= i && i + |sub| <= |s| && s[i..i + |sub|] == sub
  }

  /** String.prototype.includes. */
  predicate Includes(s: string, sub: string)
  {
    exists i | 0 <= i <= |s| :: OccursAt(s, sub, i)
  }

  /** The filter applied to one locale value: a string that, lower-cased, contains the lower-cased search string. */
  predicate ValueMatches(v: Value, searchString: string, lower: string -> string)
  {
    v.Text? && Includes(lower(v.text), lower(searchString))
  }

  /** A search string that lower-cases to "" matches every string value and nothing else. */
  lemma EmptySearchMatchesEveryString(v: Value, searchString: string, lower: string -> string)
    requires lower(searchString) == []
    ensures ValueMatches(v, searchString, lower) <==> v.Text?
  {
    if v.Text? {
      assert OccursAt(lower(v.text), lower(searchString), 0);
    }
  }

  /** The locales of one field whose value matches, in locale order. */
  function MatchedLocales(locales: seq<Localized>, searchString: string, lower: string -> string): (r: seq<string>)
    ensures |r| <= |locales|
    ensures forall l :: l in r <==>
              exists j :: 0 <= j < |locales| && locales[j].locale == l && ValueMatches(locales[j].value, searchString, lower)
  {
    if locales == [] then []
    else
      var n := |locales| - 1;
      var init := MatchedLocales(locales[..n], searchString, lower);
      assert forall j :: 0 <= j < n ==> locales[..n][j] == locales[j];
      init + (if ValueMatches(locales[n].value, searchString, lower) then [locales[n].locale] else [])
  }

  /** Matching keeps locale order: the matches of a concatenation are the concatenated matches. */
  lemma {:induction false} MatchedLocalesAppend(a: seq<Localized>, b: seq<Localized>, searchString: string, lower: string -> string)
    ensures MatchedLocales(a + b, searchString, lower) == MatchedLocales(a, searchString, lower) + MatchedLocales(b, searchString, lower)
  {
    if b != [] {
      var n := |b| - 1;
      MatchedLocalesAppend(a, b[..n], searchString, lower);
      assert (a + b)[..|a + b| - 1] == a + b[..n];
      assert (a + b)[|a + b| - 1] == b[n];
    } else {
      assert a + b == a;
    }
  }

  /**
   * The `matches` record after the loop over the fields: a field is added
   * only when some locale matched, under its name (a later field of the
   * same name would overwrite an earlier one).
   */
  function MatchesOf(fields: seq<Field>, searchString: string, lower: string -> string): map<string, seq<string>>
  {
    if fields == [] then map[]
    else
      var n := |fields| - 1;
      var m := MatchesOf(fields[..n], searchString, lower);
      var matched := MatchedLocales(fields[n].locales, searchString, lower);
      if |matched| > 0 then m[fields[n].name := matched] else m
  }

  /** A field name is a key of `matches` exactly when some field of that name has a matching locale. */
  lemma {:induction false} MatchesOfKeys(fields: seq<Field>, searchString: string, lower: string -> string, k: string)
    ensures k in MatchesOf(fields, searchString, lower) <==>
              exists i :: 0 <= i < |fields| && fields[i].name == k && MatchedLocales(fields[i].locales, searchString, lower) != []
  {
    if fields != [] {
      var n := |fields| - 1;
      var init := fields[..n];
      MatchesOfKeys(init, searchString, lower, k);
      if exists i :: 0 <= i < |init| && init[i].name == k && MatchedLocales(init[i].locales, searchString, lower) != [] {
        var i :| 0 <= i < |init| && init[i].name == k && MatchedLocales(init[i].locales, searchString, lower) != [];
        assert fields[i] == init[i];
      }
      if exists i :: 0 <= i < |fields| && fields[i].name == k && MatchedLocales(fields[i].locales, searchString, lower) != [] {
        var i :| 0 <= i < |fields| && fields[i].name == k && MatchedLocales(fields[i].locales, searchString, lower) != [];
        if i < n {
          assert init[i] == fields[i];
        }
      }
    }
  }

  /** Field names of one entry are distinct, as keys of a JavaScript object are. */
  predicate DistinctNames(fields: seq<Field>)
  {
    forall i, j :: 0 <= i < j < |fields| ==> fields[i].name != fields[j].name
  }

  /** With distinct field names, `matches[name]` is exactly that field's matched locales. */
  lemma {:induction false} MatchesOfValue(fields: seq<Field>, searchString: string, lower: string -> string, i: int)
    requires DistinctNames(fields) && 0 <= i < |fields|
    requires MatchedLocales(fields[i].locales, searchString, lower) != []
    ensures fields[i].name in MatchesOf(fields, searchString, lower)
    ensures MatchesOf(fields, searchString, lower)[fields[i].name] == MatchedLocales(fields[i].locales, searchString, lower)
  {
    var n := |fields| - 1;
    var init := fields[..n];
    if i < n {
      assert init[i] == fields[i];
      assert DistinctNames(init);
      MatchesOfValue(init, searchString, lower, i);
      assert fields[n].name != fields[i].name;
    }
  }

  /** An entry has a non-empty `matches` exactly when some locale value of some field matches. */
  lemma HasMatchIff(fields: seq<Field>, searchString: string, lower: string -> string)
    ensures |MatchesOf(fields, searchString, lower)| > 0 <==>
              exists i, j :: 0 <= i < |fields| && 0 <= j < |fields[i].locales| &&
                             ValueMatches(fields[i].locales[j].value, searchString, lower)
  {
    var m := MatchesOf(fields, searchString, lower);
    if |m| > 0 {
      var k :| k in m;
      MatchesOfKeys(fields, searchString, lower, k);
      var i :| 0 <= i < |fields| && fields[i].name == k && MatchedLocales(fields[i].locales, searchString, lower) != [];
      var l := MatchedLocales(fields[i].locales, searchString, lower)[0];
      assert l in MatchedLocales(fields[i].locales, searchString, lower);
    }
    if exists i, j :: 0 <= i < |fields| && 0 <= j < |fields[i].locales| &&
                      ValueMatches(fields[i].locales[j].value, searchString, lower) {
      var i, j :| 0 <= i < |fields| && 0 <= j < |fields[i].locales| &&
                  ValueMatches(fields[i].locales[j].value, searchString, lower);
      assert fields[i].locales[j].locale in MatchedLocales(fields[i].locales, searchString, lower);
      MatchesOfKeys(fields, searchString, lower, fields[i].name);
      assert fields[i].name in m;
    }
  }

  /** The loop over `Object.entries(fields)` that fills the `matches` record. */
  method CollectMatches(fields: seq<Field>, searchString: string, lower: string -> string)
    returns (matches: map<string, seq<string>>)
    ensures matches == MatchesOf(fields, searchString, lower)
  {
    matches := map[];
    for i := 0 to |fields|
      invariant matches == MatchesOf(fields[..i], searchString, lower)
    {
      var matchedLocales := MatchedLocales(fields[i].locales, searchString, lower);
      if |matchedLocales| > 0 {
        matches := matches[fields[i].name := matchedLocales];
      }
      assert fields[..i + 1][..i] == fields[..i];
    }
    assert fields[..|fields|] == fields;
  }

  /** Property access `fields[name]`: the locales of the first field with that name. */
  function FindField(fields: seq<Field>, name: string): (r: Option<seq<Localized>>)
    ensures r.None? <==> forall i :: 0 <= i < |fields| ==> fields[i].name != name
    ensures r.Some? ==> exists i :: 0 <= i < |fields| && fields[i] == Field(name, r.value) &&
                                    forall j :: 0 <= j < i ==> fields[j].name != name
    ensures forall i :: FirstNamed(fields, name, i) ==> r == Some(fields[i].locales)
  {
    if fields == [] then None
    else if fields[0].name == name then Some(fields[0].locales)
    else
      var r := FindField(fields[1..], name);
      assert forall i :: 0 < i < |fields| ==> fields[i] == fields[1..][i - 1];
      r
  }

  /** Property access `localizedField[locale]`: the value of the first entry for that locale. */
  function FindLocale(locales: seq<Localized>, locale: string): (r: Option<Value>)
    ensures r.None? <==> forall i :: 0 <= i < |locales| ==> locales[i].locale != locale
    ensures r.Some? ==> exists i :: 0 <= i < |locales| && locales[i] == Localized(locale, r.value) &&
                                    forall j :: 0 <= j < i ==> locales[j].locale != locale
    ensures forall j :: FirstLocale(locales, locale, j) ==> r == Some(locales[j].value)
  {
    if locales == [] then None
    else if locales[0].locale == locale then Some(locales[0].value)
    else
      var r := FindLocale(locales[1..], locale);
      assert forall i :: 0 < i < |locales| ==> locales[i] == locales[1..][i - 1];
      r
  }

  const NAME_FIELD: string := "name"
  const TITLE_LOCALE: string := "en-US"

  /** `i` is the first field called `name`. */
  predicate FirstNamed(fields: seq<Field>, name: string, i: int)
  {
    0 <= i < |fields| && fields[i].name == name && forall k :: 0 <= k < i ==> fields[k].name != name
  }

  /** `j` is the first locale entry for `locale`. */
  predicate FirstLocale(locales: seq<Localized>, locale: string, j: int)
  {
    0 <= j < |locales| && locales[j].locale == locale && forall k :: 0 <= k < j ==> locales[k].locale != locale
  }

  /**
   * `title`: the "en-US" value of the field called "name", absent when
   * there is no such field or that field has no such locale.
   */
  function Title(fields: seq<Field>): (t: Option<Value>)
    ensures (forall i :: 0 <= i < |fields| ==> fields[i].name != NAME_FIELD) ==> t.None?
    ensures t.Some? ==> exists i, j :: FirstNamed(fields, NAME_FIELD, i) && FirstLocale(fields[i].locales, TITLE_LOCALE, j) &&
                                       t.value == fields[i].locales[j].value
    ensures forall i :: FirstNamed(fields, NAME_FIELD, i) ==>
              (t.None? <==> forall j :: 0 <= j < |fields[i].locales| ==> fields[i].locales[j].locale != TITLE_LOCALE)
    ensures forall i, j :: FirstNamed(fields, NAME_FIELD, i) && FirstLocale(fields[i].locales, TITLE_LOCALE, j) ==>
              t == Some(fields[i].locales[j].value)
  {
    match FindField(fields, NAME_FIELD)
    case None => None
    case Some(locales) => FindLocale(locales, TITLE_LOCALE)
  }

  const SPACES: string := "spaces/"

  /** The characters `.` in a regular expression does not match. */
  predicate IsLineTerminator(c: char)
  {
    c == '\n' || c == '\r' || c == '\U{2028}' || c == '\U{2029}'
  }

  /** The first index, at or after `from`, where `sub` occurs in `s`. */
  function IndexOf(s: string, sub: string, from: nat): (r: Option<nat>)
    decreases |s| - from
    ensures r.Some? ==> from <= r.value && OccursAt(s, sub, r.value) &&
                        forall i :: from <= i < r.value ==> !OccursAt(s, sub, i)
    ensures r.None? ==> forall i :: from <= i ==> !OccursAt(s, sub, i)
  {
    if from + |sub| > |s| then None
    else if s[from..from + |sub|] == sub then Some(from)
    else IndexOf(s, sub, from + 1)
  }

  /** `p` is the first index where `sub` occurs in `s`. */
  predicate FirstOccurrence(s: string, sub: string, p: int)
  {
    OccursAt(s, sub, p) && forall i :: 0 <= i < p ==> !OccursAt(s, sub, i)
  }

  lemma FirstOccurrenceUnique(s: string, sub: string, p: int)
    requires FirstOccurrence(s, sub, p)
    ensures forall q :: FirstOccurrence(s, sub, q) ==> q == p
  {
  }

  /** `st` starts the line holding index `p`: no line terminator lies in between, and one (or the start of `s`) precedes `st`. */
  predicate LineStartOf(s: string, st: int, p: int)
  {
    0 <= st <= p <= |s| && (st > 0 ==> IsLineTerminator(s[st - 1])) &&
    forall i :: st <= i < p ==> !IsLineTerminator(s[i])
  }

  lemma LineStartUnique(s: string, st: int, p: int)
    requires LineStartOf(s, st, p)
    ensures forall t :: LineStartOf(s, t, p) ==> t == st
  {
  }

  /** The start of the line holding index `p`: just after the last line terminator before it. */
  function LineStart(s: string, p: nat): (r: nat)
    requires p <= |s|
    ensures LineStartOf(s, r, p)
  {
    if p == 0 || IsLineTerminator(s[p - 1]) then p else LineStart(s, p - 1)
  }

  /**
   * `urn.replace(/.*?(spaces\/.*)/, baseUrl + "/$1")`: the first match
   * starts at the beginning of the line holding the first "spaces/" and
   * runs to the end of that line; it is replaced by the base URL, a slash
   * and the text from "spaces/" to the end of the line. Without "spaces/"
   * the URN is returned unchanged.
   */
  function ConvertUrnToUrl(urn: string, baseUrl: string): (r: string)
    ensures (forall i :: !OccursAt(urn, SPACES, i)) ==> r == urn
    ensures forall p, st :: FirstOccurrence(urn, SPACES, p) && LineStartOf(urn, st, p) ==>
              r == urn[..st] + baseUrl + "/" + urn[p..]
  {
    match IndexOf(urn, SPACES, 0)
    case None => urn
    case Some(p) =>
      var st := LineStart(urn, p);
      FirstOccurrenceUnique(urn, SPACES, p);
      LineStartUnique(urn, st, p);
      urn[..st] + baseUrl + "/" + urn[p..]
  }

  /** A URN on one line that names a space becomes the base URL, a slash, and the URN from the first "spaces/" on. */
  lemma ConvertSingleLine(urn: string, baseUrl: string, p: nat)
    requires FirstOccurrence(urn, SPACES, p)
    requires forall i :: 0 <= i < |urn| ==> !IsLineTerminator(urn[i])
    ensures ConvertUrnToUrl(urn, baseUrl) == baseUrl + "/" + urn[p..]
  {
    assert LineStartOf(urn, 0, p);
    assert urn[..0] + baseUrl == baseUrl;
  }

  /** The report for an entry that has matches. */
  function ResultFor(e: Entry, searchString: string, lower: string -> string, baseUrl: string): SearchResult
  {
    SearchResult(e.id, ConvertUrnToUrl(e.urn, baseUrl), MatchesOf(e.fields, searchString, lower), e.contentType, Title(e.fields))
  }

  predicate HasMatch(e: Entry, searchString: string, lower: string -> string)
  {
    |MatchesOf(e.fields, searchString, lower)| > 0
  }

  /** The reports for a list of entries, in input order. */
  function Reports(entries: seq<Entry>, searchString: string, lower: string -> string, baseUrl: string): seq<SearchResult>
  {
    if entries == [] then []
    else
      var n := |entries| - 1;
      Reports(entries[..n], searchString, lower, baseUrl) +
      (if HasMatch(entries[n], searchString, lower) then [ResultFor(entries[n], searchString, lower, baseUrl)] else [])
  }

  /** One entry gives its report when it has a match, and nothing otherwise. */
  lemma ReportsSingle(e: Entry, searchString: string, lower: string -> string, baseUrl: string)
    ensures Reports([e], searchString, lower, baseUrl) ==
            if HasMatch(e, searchString, lower) then [ResultFor(e, searchString, lower, baseUrl)] else []
  {
    assert [e][..0] == [];
  }

  /** Search maps entry lists homomorphically: results keep input order, one report per matching entry and none for others. */
  lemma {:induction false} SearchAppend(a: seq<Entry>, b: seq<Entry>, searchString: string, lower: string -> string, baseUrl: string)
    ensures Reports(a + b, searchString, lower, baseUrl) == Reports(a, searchString, lower, baseUrl) + Reports(b, searchString, lower, baseUrl)
  {
    if b != [] {
      var n := |b| - 1;
      SearchAppend(a, b[..n], searchString, lower, baseUrl);
      assert (a + b)[..|a + b| - 1] == a + b[..n];
      assert (a + b)[|a + b| - 1] == b[n];
    } else {
      assert a + b == a;
    }
  }

  /** There are at most as many reports as entries. */
  lemma {:induction false} SearchLength(entries: seq<Entry>, searchString: string, lower: string -> string, baseUrl: string)
    ensures |Reports(entries, searchString, lower, baseUrl)| <= |entries|
  {
    if entries != [] {
      SearchLength(entries[..|entries| - 1], searchString, lower, baseUrl);
    }
  }

  /** `r` is the report of entry `e`, which has a match. */
  predicate IsReport(e: Entry, searchString: string, lower: string -> string, baseUrl: string, r: SearchResult)
  {
    HasMatch(e, searchString, lower) && r == ResultFor(e, searchString, lower, baseUrl)
  }

  /** Every report comes from an input entry that has a match: it is that entry's report. */
  lemma {:induction false} ReportSource(entries: seq<Entry>, searchString: string, lower: string -> string, baseUrl: string, r: SearchResult)
    returns (i: int)
    requires r in Reports(entries, searchString, lower, baseUrl)
    ensures 0 <= i < |entries| && IsReport(entries[i], searchString, lower, baseUrl, r)
  {
    var n := |entries| - 1;
    var init := entries[..n];
    if r in Reports(init, searchString, lower, baseUrl) {
      i := ReportSource(init, searchString, lower, baseUrl, r);
      assert entries[i] == init[i];
    } else {
      i := n;
    }
  }

  /** Every input entry that has a match gets its report. */
  lemma {:induction false} ReportPresent(entries: seq<Entry>, searchString: string, lower: string -> string, baseUrl: string, i: int)
    requires 0 <= i < |entries| && HasMatch(entries[i], searchString, lower)
    ensures ResultFor(entries[i], searchString, lower, baseUrl) in Reports(entries, searchString, lower, baseUrl)
  {
    var n := |entries| - 1;
    if i < n {
      var init := entries[..n];
      assert init[i] == entries[i];
      ReportPresent(init, searchString, lower, baseUrl, i);
    }
  }

  /**
   * searchEntries: for each entry in turn, collect its matches, take its
   * title, and push a report when `matches` has at least one key.
   */
  method SearchEntries(entries: seq<Entry>, searchString: string, lower: string -> string, baseUrl: string)
    returns (results: seq<SearchResult>)
    ensures results == Reports(entries, searchString, lower, baseUrl)
  {
    results := [];
    for i := 0 to |entries|
      invariant results == Reports(entries[..i], searchString, lower, baseUrl)
    {
      var entry := entries[i];
      var matches := CollectMatches(entry.fields, searchString, lower);
      var title := Title(entry.fields);
      if |matches| > 0 {
        results := results + [SearchResult(entry.id, ConvertUrnToUrl(entry.urn, baseUrl), matches, entry.contentType, title)];
      }
      assert entries[..i + 1][..i] == entries[..i];
    }
    assert entries[..|entries|] == entries;
  }

  function LowerChar(c: char): char
  {
    if 'A' <= c <= 'Z' then (c as int + 32) as char else c
  }

  /** ASCII lower-casing, enough for the worked example below. */
  function AsciiLower(s: string): (r: string)
    ensures |r| == |s|
    ensures forall i :: 0 <= i < |s| ==> r[i] == LowerChar(s[i])
  {
    if s == [] then []
    else [LowerChar(s[0])] + AsciiLower(s[1..])
  }

  function ExampleEntry(): Entry
  {
    Entry("e1", "crn:spaces/s1", "page",
          [Field("slug", [Localized("en-US", Text("dog"))]),
           Field("name", [Localized("en-US", Text("Cat")), Localized("de-DE", Other)])])
  }

  lemma ExampleLower()
    ensures AsciiLower("Cat") == "cat"
    ensures AsciiLower("cAT") == "cat"
    ensures AsciiLower("dog") == "dog"
  {
    assert AsciiLower("Cat")[1..] == AsciiLower("at");
  }

  lemma ExampleSlugNoMatch()
    ensures MatchedLocales(ExampleEntry().fields[0].locales, "cAT", AsciiLower) == []
  {
    ExampleLower();
    assert !Includes("dog", "cat");
  }

  lemma ExampleNameMatch()
    ensures MatchedLocales(ExampleEntry().fields[1].locales, "cAT", AsciiLower) == ["en-US"]
  {
    ExampleLower();
    assert OccursAt("cat", "cat", 0);
    var locales := ExampleEntry().fields[1].locales;
    assert locales[..1] == [locales[0]];
  }

  lemma ExampleMatches()
    ensures MatchesOf(ExampleEntry().fields, "cAT", AsciiLower) == map["name" := ["en-US"]]
  {
    var e := ExampleEntry();
    ExampleSlugNoMatch();
    ExampleNameMatch();
    assert e.fields[..1] == [e.fields[0]];
  }

  lemma FirstCharMismatch(s: string, sub: string, i: int)
    requires 0 <= i < |s| && |sub| > 0 && s[i] != sub[0]
    ensures !OccursAt(s, sub, i)
  {
  }

  lemma ExampleUrnFirst()
    ensures FirstOccurrence(ExampleEntry().urn, SPACES, 4)
  {
    var urn := ExampleEntry().urn;
    assert urn[4..4 + |SPACES|] == SPACES;
    forall i | 0 <= i < 4
      ensures !OccursAt(urn, SPACES, i)
    {
      FirstCharMismatch(urn, SPACES, i);
    }
  }

  lemma ExampleUrnOneLine()
    ensures forall i :: 0 <= i < |ExampleEntry().urn| ==> !IsLineTerminator(ExampleEntry().urn[i])
  {
  }

  lemma ExampleUrlFor(urn: string, baseUrl: string)
    requires urn == "crn:spaces/s1" && baseUrl == "https://app"
    requires FirstOccurrence(urn, SPACES, 4)
    requires forall i :: 0 <= i < |urn| ==> !IsLineTerminator(urn[i])
    ensures ConvertUrnToUrl(urn, baseUrl) == "https://app/spaces/s1"
  {
    ConvertSingleLine(urn, baseUrl, 4);
    assert urn[4..] == "spaces/s1";
  }

  lemma ExampleUrl()
    ensures ConvertUrnToUrl(ExampleEntry().urn, "https://app") == "https://app/spaces/s1"
  {
    ExampleUrnFirst();
    ExampleUrnOneLine();
    ExampleUrlFor(ExampleEntry().urn, "https://app");
  }

  lemma ExampleTitle()
    ensures Title(ExampleEntry().fields) == Some(Text("Cat"))
  {
  }

  /**
   * Searching "cAT" finds the entry through its "name" field in "en-US"
   * only (the "de-DE" value is not a string), reports that title, and
   * turns the URN into a link under the base URL.
   */
  lemma ExampleSearch()
    ensures Reports([ExampleEntry()], "cAT", AsciiLower, "https://app") ==
            [SearchResult("e1", "https://app/spaces/s1", map["name" := ["en-US"]], "page", Some(Text("Cat")))]
  {
    ReportsSingle(ExampleEntry(), "cAT", AsciiLower, "https://app");
    ExampleResult();
  }

  lemma ExampleResult()
    ensures HasMatch(ExampleEntry(), "cAT", AsciiLower)
    ensures ResultFor(ExampleEntry(), "cAT", AsciiLower, "https://app") ==
            SearchResult("e1", "https://app/spaces/s1", map["name" := ["en-US"]], "page", Some(Text("Cat")))
  {
    ExampleMatches();
    ExampleUrl();
    ExampleTitle();
  }
}
