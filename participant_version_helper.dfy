/**
 * Building Synapse rows for participant versions (Exporter 3.0): the
 * participant-version row, the participant-version-demographics rows, the
 * column-name-to-ID map they are keyed by, and the canonical serialisations
 * of study memberships, data groups and languages.
 *
 * A row (`PartialRow`) is a sparse map from column ID to string. The column
 * ID of a name is looked up in the table's column map; a name the table does
 * not have yields Java's `null`, which a `HashMap` accepts as a key, so the
 * key type is `Option<string>`.
 */
module ParticipantVersionHelper {
  import opened Wrappers
  import opened Strings
  import Json

  // Participant Version table columns
  const COLUMN_NAME_HEALTH_CODE := "healthCode"
  const COLUMN_NAME_PARTICIPANT_VERSION := "participantVersion"
  const COLUMN_NAME_CREATED_ON := "createdOn"
  const COLUMN_NAME_MODIFIED_ON := "modifiedOn"
  const COLUMN_NAME_DATA_GROUPS := "dataGroups"
  const COLUMN_NAME_LANGUAGES := "languages"
  const COLUMN_NAME_SHARING_SCOPE := "sharingScope"
  const COLUMN_NAME_STUDY_MEMBERSHIPS := "studyMemberships"
  const COLUMN_NAME_CLIENT_TIME_ZONE := "clientTimeZone"
  // Participant Version Demographics table columns
  const COLUMN_NAME_DEMOGRAPHIC_CATEGORY_NAME := "demographicCategoryName"
  const COLUMN_NAME_DEMOGRAPHIC_VALUE := "demographicValue"
  const COLUMN_NAME_DEMOGRAPHIC_UNITS := "demographicUnits"

  /** The external ID recorded for a study membership that has none. */
  const EXT_ID_NONE := "<none>"

  const MAX_LANGUAGE_LENGTH := 5
  const MAX_LANGUAGES := 10

  const PARTICIPANT_VERSION_COLUMNS := [
    COLUMN_NAME_HEALTH_CODE, COLUMN_NAME_PARTICIPANT_VERSION, COLUMN_NAME_CREATED_ON,
    COLUMN_NAME_MODIFIED_ON, COLUMN_NAME_DATA_GROUPS, COLUMN_NAME_LANGUAGES,
    COLUMN_NAME_SHARING_SCOPE, COLUMN_NAME_STUDY_MEMBERSHIPS, COLUMN_NAME_CLIENT_TIME_ZONE]

  const DEMOGRAPHICS_COLUMNS := [
    COLUMN_NAME_HEALTH_CODE, COLUMN_NAME_PARTICIPANT_VERSION, COLUMN_NAME_DEMOGRAPHIC_CATEGORY_NAME,
    COLUMN_NAME_DEMOGRAPHIC_VALUE, COLUMN_NAME_DEMOGRAPHIC_UNITS]

  /** A column of a Synapse table, as its schema lists it. */
  datatype ColumnModel = ColumnModel(name: string, id: string)

  /** The key a cell is stored under: the column ID, or `None` for Java's `null`. */
  type ColumnKey = Option<string>

  /** A sparse Synapse row: column ID to value. */
  type Row = map<ColumnKey, string>

  datatype DemographicResponse = DemographicResponse(units: Option<string>, values: seq<string>)

  /** One entry of the app-demographics map, in the map's iteration order; either side may be `null`. */
  datatype DemographicEntry = DemographicEntry(category: Option<string>, response: Option<DemographicResponse>)

  /**
   * A participant version as the REST model delivers it. Time stamps are epoch
   * milliseconds; `sharingScope` is the scope's wire value. The language list is
   * the caller's mutable list, so it is an array.
   */
  datatype ParticipantVersion = ParticipantVersion(
    healthCode: Option<string>,
    participantVersion: Option<int>,
    createdOn: Option<int>,
    modifiedOn: Option<int>,
    dataGroups: Option<seq<string>>,
    languages: Option<array<string>>,
    sharingScope: Option<string>,
    studyMemberships: Option<map<string, string>>,
    timeZone: Option<string>,
    appDemographics: Option<seq<DemographicEntry>>)

  /** `columnNameToId.get(name)`. */
  function Key(columnNameToId: map<string, string>, name: string): ColumnKey
  {
    if name in columnNameToId then Some(columnNameToId[name]) else None
  }

  /** Every name has a column and no two names share one. */
  ghost predicate ColumnsResolved(columnNameToId: map<string, string>, names: seq<string>)
  {
    && (forall i :: 0 <= i < |names| ==> names[i] in columnNameToId)
    && (forall i, j :: 0 <= i < j < |names| ==> columnNameToId[names[i]] != columnNameToId[names[j]])
  }

  /** `row` holds `value` under `key` when there is a value, and nothing under `key` when it is `null`. */
  ghost predicate HasCell(row: Row, key: ColumnKey, value: Option<string>)
  {
    match value
    case Some(v) => key in row && row[key] == v
    case None => key !in row
  }

  // ---------------------------------------------------------------------------
  // Column map

  /** Column name to column ID over a table's column models; a later column wins a repeated name. */
  method GetColumnNameToIdMap(columnModels: seq<ColumnModel>) returns (columnNameToId: map<string, string>)
    ensures columnNameToId.Keys == set c | c in columnModels :: c.name
    ensures forall i :: 0 <= i < |columnModels| &&
              (forall j :: i < j < |columnModels| ==> columnModels[j].name != columnModels[i].name)
              ==> columnNameToId[columnModels[i].name] == columnModels[i].id
  {
    columnNameToId := map[];
    for k := 0 to |columnModels|
      invariant columnNameToId.Keys == set c | c in columnModels[..k] :: c.name
      invariant forall i :: 0 <= i < k &&
                  (forall j :: i < j < k ==> columnModels[j].name != columnModels[i].name)
                  ==> columnNameToId[columnModels[i].name] == columnModels[i].id
    {
      columnNameToId := columnNameToId[columnModels[k].name := columnModels[k].id];
      assert columnModels[..k + 1] == columnModels[..k] + [columnModels[k]];
    }
    assert columnModels[..|columnModels|] == columnModels;
  }

  // ---------------------------------------------------------------------------
  // Study memberships

  function Lookup(m: map<string, string>, k: string): Option<string>
  {
    if k in m then Some(m[k]) else None
  }

  /** The value written for an external ID: empty for the `<none>` sentinel, `null` rendered as Java concatenation does. */
  function ExternalIdValue(extId: Option<string>): string
  {
    match extId
    case None => "null"
    case Some(e) => if e == EXT_ID_NONE then "" else e
  }

  /** `studyId + "=" + value` for one study. */
  function MembershipPair(m: map<string, string>, studyId: string): string
  {
    studyId + "=" + ExternalIdValue(Lookup(m, studyId))
  }

  /** The pairs of the listed studies, one per listed study and in the listing's order. */
  function MembershipPairs(m: map<string, string>, studyIds: seq<string>): seq<string>
  {
    seq(|studyIds|, i requires 0 <= i < |studyIds| => MembershipPair(m, studyIds[i]))
  }

  /** The studies serialised: the filter study alone, or every member study in order. */
  function StudyIdsToSerialize(studyIdFilter: Option<string>, m: map<string, string>): seq<string>
  {
    match studyIdFilter
    case Some(f) => [f]
    case None => SortedElements(m.Keys)
  }

  /** The serialised memberships: `null` for no memberships, else the sorted pairs framed and separated by `|`. */
  function StudyMemberships(studyIdFilter: Option<string>, studyMemberships: Option<map<string, string>>): (r: Option<string>)
    ensures r.None? <==> studyMemberships.None? || |studyMemberships.value| == 0
  {
    match studyMemberships
    case None => None
    case Some(m) =>
      if |m| == 0 then None
      else Some("|" + Join("|", SortStrings(MembershipPairs(m, StudyIdsToSerialize(studyIdFilter, m)))) + "|")
  }

  /** Serialises study memberships, building the pairs study by study and sorting them. */
  method SerializeStudyMemberships(studyIdFilter: Option<string>, studyMemberships: Option<map<string, string>>)
    returns (r: Option<string>)
    ensures r == StudyMemberships(studyIdFilter, studyMemberships)
  {
    if studyMemberships.None? || |studyMemberships.value| == 0 {
      return None;
    }
    var m := studyMemberships.value;
    var studyIdList := StudyIdsToSerialize(studyIdFilter, m);
    var pairs := [];
    for i := 0 to |studyIdList|
      invariant pairs == MembershipPairs(m, studyIdList[..i])
    {
      var extId := Lookup(m, studyIdList[i]);
      var value := if extId == Some(EXT_ID_NONE) then "" else ExternalIdValue(extId);
      pairs := pairs + [studyIdList[i] + "=" + value];
    }
    assert studyIdList[..|studyIdList|] == studyIdList;
    pairs := SortStrings(pairs);
    r := Some("|" + Join("|", pairs) + "|");
  }

  /** With a filter, only the filter study's pair is written, between two `|`. */
  lemma StudyMembershipsFilter(f: string, m: map<string, string>)
    requires |m| > 0
    ensures StudyMemberships(Some(f), Some(m)) == Some("|" + MembershipPair(m, f) + "|")
  {
    var unsorted := MembershipPairs(m, [f]);
    assert unsorted == [MembershipPair(m, f)];
    SortedUnique(SortStrings(unsorted), unsorted);
  }

  /**
   * Without a filter, the serialised memberships are `|`, the pairs joined by
   * `|`, and `|`: the pairs in lexicographic order, one per member study, each
   * study's pair among them and nothing else.
   */
  lemma StudyMembershipsAll(m: map<string, string>)
    requires |m| > 0
    ensures exists pairs ::
      && StudyMemberships(None, Some(m)) == Some("|" + Join("|", pairs) + "|")
      && Sorted(pairs)
      && multiset(pairs) == multiset(MembershipPairs(m, SortedElements(m.Keys)))
      && |pairs| == |m|
      && (forall k :: k in m ==> MembershipPair(m, k) in pairs)
      && (forall p :: p in pairs ==> exists k :: k in m && p == MembershipPair(m, k))
  {
    var ids := SortedElements(m.Keys);
    var unsorted := MembershipPairs(m, ids);
    var pairs := SortStrings(unsorted);
    SameElements(pairs, unsorted);
    SortedElementsMembers(m.Keys);
    PairsOfStudies(m, ids);
  }

  /** The pairs of a listing of the member studies are the pairs of the member studies. */
  lemma PairsOfStudies(m: map<string, string>, ids: seq<string>)
    requires forall k :: k in ids <==> k in m
    ensures forall k :: k in m ==> MembershipPair(m, k) in MembershipPairs(m, ids)
    ensures forall p :: p in MembershipPairs(m, ids) ==> exists k :: k in m && p == MembershipPair(m, k)
  {
    var pairs := MembershipPairs(m, ids);
    forall k | k in m ensures MembershipPair(m, k) in pairs {
      var i :| 0 <= i < |ids| && ids[i] == k;
      assert pairs[i] == MembershipPair(m, k);
    }
    forall p | p in pairs ensures exists k :: k in m && p == MembershipPair(m, k) {
      var i :| 0 <= i < |pairs| && pairs[i] == p;
      assert ids[i] in m;
    }
  }

  /** Without a filter, the memberships are fixed by any sorted listing of the studies and of their pairs. */
  lemma StudyMembershipsFromSorted(m: map<string, string>, ids: seq<string>, pairs: seq<string>)
    requires |m| > 0
    requires Sorted(ids) && multiset(ids) == multiset(m.Keys)
    requires Sorted(pairs) && multiset(pairs) == multiset(MembershipPairs(m, ids))
    ensures StudyMemberships(None, Some(m)) == Some("|" + Join("|", pairs) + "|")
  {
    SortedUnique(SortedElements(m.Keys), ids);
    SortedUnique(SortStrings(MembershipPairs(m, ids)), pairs);
  }

  lemma SortedThree(a: string, b: string, c: string)
    requires LessEq(a, b) && LessEq(b, c)
    ensures Sorted([a, b, c])
  {
    LessEqTransitive(a, b, c);
  }

  lemma ExampleIdsSorted()
    ensures Sorted(["studyA", "studyB", "studyC"])
  {
    LessEqAt("studyA", "studyB", 5);
    LessEqAt("studyB", "studyC", 5);
    SortedThree("studyA", "studyB", "studyC");
  }

  lemma ExamplePairsSorted()
    ensures Sorted(["studyA=ext-A", "studyB=", "studyC=ext-C"])
  {
    LessEqAt("studyA=ext-A", "studyB=", 5);
    LessEqAt("studyB=", "studyC=ext-C", 5);
    SortedThree("studyA=ext-A", "studyB=", "studyC=ext-C");
  }

  lemma ExamplePairs(m: map<string, string>)
    requires m == map["studyA" := "ext-A", "studyB" := EXT_ID_NONE, "studyC" := "ext-C"]
    ensures multiset(m.Keys) == multiset(["studyA", "studyB", "studyC"])
    ensures MembershipPairs(m, ["studyA", "studyB", "studyC"]) == ["studyA=ext-A", "studyB=", "studyC=ext-C"]
  {
    assert m.Keys == {"studyA", "studyB", "studyC"};
    assert MembershipPair(m, "studyA") == "studyA=ext-A";
    assert MembershipPair(m, "studyB") == "studyB=";
    assert MembershipPair(m, "studyC") == "studyC=ext-C";
  }

  lemma JoinThree(sep: string, a: string, b: string, c: string)
    ensures Join(sep, [a, b, c]) == a + sep + b + sep + c
  {
    assert [a, b, c][1..] == [b, c];
    assert [b, c][1..] == [c];
    assert Join(sep, [b, c]) == b + sep + c;
    assert a + sep + (b + sep + c) == a + sep + b + sep + c;
  }

  /** The framed example string; a lemma rather than an assert, to keep the solver's context small. */
  lemma ExampleFramed(joined: string)
    requires joined == "studyA=ext-A" + "|" + "studyB=" + "|" + "studyC=ext-C"
    ensures "|" + joined + "|" == "|studyA=ext-A|studyB=|studyC=ext-C|"
  {
  }

  /** A map of three memberships, one without an external ID, serialises as documented. */
  lemma StudyMembershipsExample()
    ensures StudyMemberships(None, Some(map["studyA" := "ext-A", "studyB" := EXT_ID_NONE, "studyC" := "ext-C"]))
         == Some("|studyA=ext-A|studyB=|studyC=ext-C|")
  {
    var m := map["studyA" := "ext-A", "studyB" := EXT_ID_NONE, "studyC" := "ext-C"];
    ExampleIdsSorted();
    ExamplePairsSorted();
    ExamplePairs(m);
    StudyMembershipsFromSorted(m, ["studyA", "studyB", "studyC"], ["studyA=ext-A", "studyB=", "studyC=ext-C"]);
    JoinThree("|", "studyA=ext-A", "studyB=", "studyC=ext-C");
    ExampleFramed(Join("|", ["studyA=ext-A", "studyB=", "studyC=ext-C"]));
  }

  lemma FilterExamplePair(m: map<string, string>)
    requires m == map["studyA" := "extA", "studyB" := "extB"]
    ensures MembershipPair(m, "studyB") == "studyB=extB"
    ensures "|" + MembershipPair(m, "studyB") + "|" == "|studyB=extB|"
  {
    assert Lookup(m, "studyB") == Some("extB");
  }

  /** With a filter, only the filter study's membership is written. */
  lemma StudyMembershipsFilterExample()
    ensures StudyMemberships(Some("studyB"), Some(map["studyA" := "extA", "studyB" := "extB"]))
         == Some("|studyB=extB|")
  {
    var m := map["studyA" := "extA", "studyB" := "extB"];
    StudyMembershipsFilter("studyB", m);
    FilterExamplePair(m);
  }

  /** A filter study the participant is not in is written with the value `null`. */
  lemma StudyMembershipsFilterNotMember(f: string, m: map<string, string>)
    requires |m| > 0 && f !in m
    ensures StudyMemberships(Some(f), Some(m)) == Some("|" + f + "=null|")
  {
    StudyMembershipsFilter(f, m);
    assert Lookup(m, f) == None;
    assert "|" + (f + "=" + "null") + "|" == "|" + f + "=null|";
  }

  // ---------------------------------------------------------------------------
  // Data groups

  /** The data-groups cell: a sorted copy of the groups, comma-joined. */
  function SerializeDataGroups(dataGroups: seq<string>): string
  {
    Join(",", SortStrings(dataGroups))
  }

  /** The cell does not depend on the order the data groups come in. */
  lemma DataGroupsIgnoreOrder(a: seq<string>, b: seq<string>)
    requires multiset(a) == multiset(b)
    ensures SerializeDataGroups(a) == SerializeDataGroups(b)
  {
    SortIgnoresOrder(a, b);
  }

  /** The cell is the comma-join of whichever sorted listing of the groups. */
  lemma DataGroupsFromSorted(dataGroups: seq<string>, sorted: seq<string>)
    requires Sorted(sorted) && multiset(sorted) == multiset(dataGroups)
    ensures SerializeDataGroups(dataGroups) == Join(",", sorted)
  {
    SortedUnique(SortStrings(dataGroups), sorted);
  }

  lemma DataGroupsExampleJoin()
    ensures Sorted(["a", "b", "c"])
    ensures Join(",", ["a", "b", "c"]) == "a,b,c"
  {
    LessEqAt("a", "b", 0);
    LessEqAt("b", "c", 0);
    LessEqAt("a", "c", 0);
  }

  lemma DataGroupsExample()
    ensures SerializeDataGroups(["b", "a", "c"]) == "a,b,c"
  {
    DataGroupsExampleJoin();
    DataGroupsFromSorted(["b", "a", "c"], ["a", "b", "c"]);
  }

  // ---------------------------------------------------------------------------
  // Languages

  function TruncateLanguage(language: string): string
  {
    if |language| > MAX_LANGUAGE_LENGTH then language[..MAX_LANGUAGE_LENGTH] else language
  }

  function Min(a: int, b: int): int
  {
    if a < b then a else b
  }

  /** The languages written: the first ten, each cut to five characters, in their order. */
  function SanitizedLanguages(languages: seq<string>): seq<string>
  {
    seq(Min(|languages|, MAX_LANGUAGES), i requires 0 <= i < Min(|languages|, MAX_LANGUAGES) => TruncateLanguage(languages[i]))
  }

  /**
   * At most ten languages, none longer than five characters, each a prefix of the
   * language at its place, the short ones unchanged.
   */
  lemma SanitizedLanguagesBounds(languages: seq<string>)
    ensures |SanitizedLanguages(languages)| == Min(|languages|, MAX_LANGUAGES)
    ensures forall i :: 0 <= i < |SanitizedLanguages(languages)| ==>
              && |SanitizedLanguages(languages)[i]| <= MAX_LANGUAGE_LENGTH
              && SanitizedLanguages(languages)[i] <= languages[i]
              && (|languages[i]| <= MAX_LANGUAGE_LENGTH ==> SanitizedLanguages(languages)[i] == languages[i])
              && (|languages[i]| > MAX_LANGUAGE_LENGTH ==> SanitizedLanguages(languages)[i] == languages[i][..MAX_LANGUAGE_LENGTH])
  {
  }

  /** Sanitising a sanitised list changes nothing. */
  lemma SanitizedLanguagesIdempotent(languages: seq<string>)
    ensures SanitizedLanguages(SanitizedLanguages(languages)) == SanitizedLanguages(languages)
  {
    var s := SanitizedLanguages(languages);
    assert forall i :: 0 <= i < |s| ==> TruncateLanguage(s[i]) == s[i];
  }

  /** A list within both bounds is written as it is. */
  lemma SanitizedLanguagesWithinBounds(languages: seq<string>)
    requires |languages| <= MAX_LANGUAGES
    requires forall i :: 0 <= i < |languages| ==> |languages[i]| <= MAX_LANGUAGE_LENGTH
    ensures SanitizedLanguages(languages) == languages
  {
  }

  /** The written languages read back, as a JSON array, as the sanitised list. */
  lemma SerializedLanguagesRoundTrip(languages: seq<string>)
    ensures Json.ReadStringArray(Json.WriteStringArray(SanitizedLanguages(languages))) == Some(SanitizedLanguages(languages))
  {
    Json.WriteStringArrayRoundTrip(SanitizedLanguages(languages));
  }

  /**
   * Truncates the languages in the caller's list: the first ten entries are cut to
   * five characters in place, the rest are left alone; returns the JSON array of
   * the first ten entries.
   */
  method SerializeLanguages(languageList: array<string>) returns (serializedLanguages: string)
    modifies languageList
    ensures serializedLanguages == Json.WriteStringArray(SanitizedLanguages(old(languageList[..])))
    ensures var n := Min(languageList.Length, MAX_LANGUAGES);
            languageList[..n] == SanitizedLanguages(old(languageList[..])) && languageList[n..] == old(languageList[n..])
  {
    var numLanguages := languageList.Length;
    if numLanguages > MAX_LANGUAGES {
      numLanguages := MAX_LANGUAGES;
    }
    for i := 0 to numLanguages
      invariant forall k :: 0 <= k < i ==> languageList[k] == TruncateLanguage(old(languageList[k]))
      invariant forall k :: i <= k < languageList.Length ==> languageList[k] == old(languageList[k])
    {
      var language := languageList[i];
      if |language| > MAX_LANGUAGE_LENGTH {
        languageList[i] := language[..MAX_LANGUAGE_LENGTH];
      }
    }
    assert languageList[..numLanguages] == SanitizedLanguages(old(languageList[..]));
    serializedLanguages := Json.WriteStringArray(languageList[..numLanguages]);
  }

  // ---------------------------------------------------------------------------
  // Rows put together column by column

  /** `rowMap.put(columnNameToId.get(column), value)` when `value` is present; the row unchanged otherwise. */
  function PutIfPresent(columnNameToId: map<string, string>, row: Row, column: string, value: Option<string>): Row
  {
    if value.Some? then row[Key(columnNameToId, column) := value.value] else row
  }

  /** The row left by putting `values[i]`, when present, under `columns[i]`, in order. */
  function RowFor(columnNameToId: map<string, string>, columns: seq<string>, values: seq<Option<string>>): Row
    requires |values| == |columns|
  {
    if columns == [] then map[]
    else
      var n := |columns| - 1;
      PutIfPresent(columnNameToId, RowFor(columnNameToId, columns[..n], values[..n]), columns[n], values[n])
  }

  /** The row's keys are the keys of the columns with a value. */
  lemma {:induction false} RowForKeys(columnNameToId: map<string, string>, columns: seq<string>,
                                      values: seq<Option<string>>)
    requires |values| == |columns|
    ensures RowFor(columnNameToId, columns, values).Keys
         == set i | 0 <= i < |columns| && values[i].Some? :: Key(columnNameToId, columns[i])
  {
    if columns != [] {
      var n := |columns| - 1;
      RowForKeys(columnNameToId, columns[..n], values[..n]);
    }
  }

  /**
   * Over resolved columns, each column's key holds that column's value, and
   * nothing when the value is absent.
   */
  lemma {:induction false} RowForCell(columnNameToId: map<string, string>, columns: seq<string>,
                                      values: seq<Option<string>>, i: nat)
    requires ColumnsResolved(columnNameToId, columns)
    requires |values| == |columns| && i < |columns|
    ensures HasCell(RowFor(columnNameToId, columns, values), Key(columnNameToId, columns[i]), values[i])
  {
    var n := |columns| - 1;
    var init := columns[..n];
    if i < n {
      assert ColumnsResolved(columnNameToId, init);
      RowForCell(columnNameToId, init, values[..n], i);
      assert Key(columnNameToId, columns[n]) != Key(columnNameToId, columns[i]);
    } else if n > 0 {
      RowForKeys(columnNameToId, init, values[..n]);
      assert Key(columnNameToId, columns[i]) !in RowFor(columnNameToId, init, values[..n]);
    }
  }

  // ---------------------------------------------------------------------------
  // Participant-version row

  function StringOf(n: Option<int>): Option<string>
  {
    match n
    case None => None
    case Some(v) => Some(IntToString(v))
  }

  /** The values of the participant-version fields, in the order of `PARTICIPANT_VERSION_COLUMNS`. */
  function FieldValues(studyId: Option<string>, pv: ParticipantVersion, languages: Option<seq<string>>): seq<Option<string>>
  {
    [ pv.healthCode,
      StringOf(pv.participantVersion),
      StringOf(pv.createdOn),
      StringOf(pv.modifiedOn),
      if pv.dataGroups.Some? then Some(SerializeDataGroups(pv.dataGroups.value)) else None,
      if languages.Some? then Some(Json.WriteStringArray(SanitizedLanguages(languages.value))) else None,
      pv.sharingScope,
      StudyMemberships(studyId, pv.studyMemberships),
      pv.timeZone ]
  }

  /** The participant-version row: each field put under its column, in the source's order. */
  function ParticipantVersionRow(studyId: Option<string>, columnNameToId: map<string, string>,
                                 pv: ParticipantVersion, languages: Option<seq<string>>): Row
  {
    RowFor(columnNameToId, PARTICIPANT_VERSION_COLUMNS, FieldValues(studyId, pv, languages))
  }

  /** The first five columns put one after another. */
  lemma RowForFive(c: map<string, string>, cols: seq<string>, values: seq<Option<string>>)
    requires |cols| == |values| && |cols| >= 5
    ensures RowFor(c, cols[..5], values[..5])
         == PutIfPresent(c, PutIfPresent(c, PutIfPresent(c, PutIfPresent(c, PutIfPresent(c, map[],
              cols[0], values[0]), cols[1], values[1]), cols[2], values[2]), cols[3], values[3]), cols[4], values[4])
  {
    RowForPrefix(c, cols, values, 0);
    RowForPrefix(c, cols, values, 1);
    RowForPrefix(c, cols, values, 2);
    RowForPrefix(c, cols, values, 3);
    RowForPrefix(c, cols, values, 4);
  }

  /** Nine columns put one after another. */
  lemma RowForNine(c: map<string, string>, cols: seq<string>, values: seq<Option<string>>)
    requires |cols| == 9 && |values| == 9
    ensures RowFor(c, cols, values)
         == PutIfPresent(c, PutIfPresent(c, PutIfPresent(c, PutIfPresent(c, PutIfPresent(c, PutIfPresent(c,
              PutIfPresent(c, PutIfPresent(c, PutIfPresent(c, map[],
                cols[0], values[0]), cols[1], values[1]), cols[2], values[2]), cols[3], values[3]),
                cols[4], values[4]), cols[5], values[5]), cols[6], values[6]), cols[7], values[7]),
                cols[8], values[8])
  {
    RowForFive(c, cols, values);
    RowForPrefix(c, cols, values, 5);
    RowForPrefix(c, cols, values, 6);
    RowForPrefix(c, cols, values, 7);
    RowForPrefix(c, cols, values, 8);
    assert cols[..9] == cols && values[..9] == values;
  }

  lemma RowForPrefix(c: map<string, string>, cols: seq<string>, values: seq<Option<string>>, k: nat)
    requires |values| == |cols| && k < |cols|
    ensures RowFor(c, cols[..k + 1], values[..k + 1])
         == PutIfPresent(c, RowFor(c, cols[..k], values[..k]), cols[k], values[k])
  {
    assert cols[..k + 1][..k] == cols[..k] && values[..k + 1][..k] == values[..k];
  }

  /**
   * Builds the participant-version row. The caller's language list has its
   * first ten entries cut to five characters, and the row holds them as a
   * JSON array.
   */
  method MakeRowForParticipantVersion(studyId: Option<string>, columnNameToId: map<string, string>,
                                      participantVersion: ParticipantVersion) returns (row: Row)
    modifies if participantVersion.languages.Some? then {participantVersion.languages.value} else {}
    ensures row == ParticipantVersionRow(studyId, columnNameToId, participantVersion,
              if participantVersion.languages.Some? then Some(old(participantVersion.languages.value[..])) else None)
    ensures participantVersion.languages.Some? ==>
              var list := participantVersion.languages.value;
              var n := Min(list.Length, MAX_LANGUAGES);
              list[..n] == SanitizedLanguages(old(list[..])) && list[n..] == old(list[n..])
  {
    var pv := participantVersion;
    row := map[];
    row := PutIfPresent(columnNameToId, row, COLUMN_NAME_HEALTH_CODE, pv.healthCode);
    row := PutIfPresent(columnNameToId, row, COLUMN_NAME_PARTICIPANT_VERSION, StringOf(pv.participantVersion));
    row := PutIfPresent(columnNameToId, row, COLUMN_NAME_CREATED_ON, StringOf(pv.createdOn));
    row := PutIfPresent(columnNameToId, row, COLUMN_NAME_MODIFIED_ON, StringOf(pv.modifiedOn));
    if pv.dataGroups.Some? {
      // Data-group order carries no meaning, so a sorted copy is the canonical form.
      var dataGroupCopy := pv.dataGroups.value;
      dataGroupCopy := SortStrings(dataGroupCopy);
      row := row[Key(columnNameToId, COLUMN_NAME_DATA_GROUPS) := Join(",", dataGroupCopy)];
    }
    if pv.languages.Some? {
      var serializedLanguages := SerializeLanguages(pv.languages.value);
      row := row[Key(columnNameToId, COLUMN_NAME_LANGUAGES) := serializedLanguages];
    }
    row := PutIfPresent(columnNameToId, row, COLUMN_NAME_SHARING_SCOPE, pv.sharingScope);
    var serializedStudyMemberships := SerializeStudyMemberships(studyId, pv.studyMemberships);
    row := PutIfPresent(columnNameToId, row, COLUMN_NAME_STUDY_MEMBERSHIPS, serializedStudyMemberships);
    row := PutIfPresent(columnNameToId, row, COLUMN_NAME_CLIENT_TIME_ZONE, pv.timeZone);
    RowForNine(columnNameToId, PARTICIPANT_VERSION_COLUMNS,
               FieldValues(studyId, pv, if pv.languages.Some? then Some(old(pv.languages.value[..])) else None));
  }

  /**
   * When the table has all nine columns, each column holds its field's value
   * (nothing when the field is `null`), and the row has no other cell.
   */
  lemma ParticipantVersionRowCells(studyId: Option<string>, columnNameToId: map<string, string>,
                                   pv: ParticipantVersion, languages: Option<seq<string>>)
    requires ColumnsResolved(columnNameToId, PARTICIPANT_VERSION_COLUMNS)
    ensures var row := ParticipantVersionRow(studyId, columnNameToId, pv, languages);
            var values := FieldValues(studyId, pv, languages);
      && (forall i :: 0 <= i < |PARTICIPANT_VERSION_COLUMNS| ==>
            HasCell(row, Key(columnNameToId, PARTICIPANT_VERSION_COLUMNS[i]), values[i]))
      && row.Keys == set i | 0 <= i < |PARTICIPANT_VERSION_COLUMNS| && values[i].Some?
                           :: Key(columnNameToId, PARTICIPANT_VERSION_COLUMNS[i])
  {
    var values := FieldValues(studyId, pv, languages);
    forall i | 0 <= i < |PARTICIPANT_VERSION_COLUMNS|
      ensures HasCell(RowFor(columnNameToId, PARTICIPANT_VERSION_COLUMNS, values),
                      Key(columnNameToId, PARTICIPANT_VERSION_COLUMNS[i]), values[i])
    {
      RowForCell(columnNameToId, PARTICIPANT_VERSION_COLUMNS, values, i);
    }
    RowForKeys(columnNameToId, PARTICIPANT_VERSION_COLUMNS, values);
  }

  // ---------------------------------------------------------------------------
  // Demographics rows

  /** An entry that yields rows: both its category and its response are present. */
  predicate UsableEntry(e: DemographicEntry)
  {
    e.category.Some? && e.response.Some?
  }

  /** The row for one demographic value. */
  function DemographicRow(columnNameToId: map<string, string>, healthCode: string, versionNum: int,
                          category: string, value: string, units: Option<string>): Row
  {
    var row := map[][Key(columnNameToId, COLUMN_NAME_HEALTH_CODE) := healthCode]
                    [Key(columnNameToId, COLUMN_NAME_PARTICIPANT_VERSION) := IntToString(versionNum)]
                    [Key(columnNameToId, COLUMN_NAME_DEMOGRAPHIC_CATEGORY_NAME) := category]
                    [Key(columnNameToId, COLUMN_NAME_DEMOGRAPHIC_VALUE) := value];
    PutIfPresent(columnNameToId, row, COLUMN_NAME_DEMOGRAPHIC_UNITS, units)
  }

  /** The rows for one entry: one per value, in the response's order; none for an unusable entry. */
  function EntryRows(columnNameToId: map<string, string>, healthCode: string, versionNum: int,
                     e: DemographicEntry): seq<Row>
  {
    if !UsableEntry(e) then []
    else
      var values := e.response.value.values;
      seq(|values|, i requires 0 <= i < |values| =>
        DemographicRow(columnNameToId, healthCode, versionNum, e.category.value, values[i], e.response.value.units))
  }

  /** The rows for all entries, entry by entry. */
  function DemographicRows(columnNameToId: map<string, string>, healthCode: string, versionNum: int,
                           entries: seq<DemographicEntry>): seq<Row>
  {
    if entries == [] then []
    else DemographicRows(columnNameToId, healthCode, versionNum, entries[..|entries| - 1])
         + EntryRows(columnNameToId, healthCode, versionNum, entries[|entries| - 1])
  }

  /** The number of demographic values over the usable entries. */
  function ValueCount(entries: seq<DemographicEntry>): nat
  {
    if entries == [] then 0
    else (if UsableEntry(entries[0]) then |entries[0].response.value.values| else 0) + ValueCount(entries[1..])
  }

  function Entries(pv: ParticipantVersion): seq<DemographicEntry>
  {
    if pv.appDemographics.Some? then pv.appDemographics.value else []
  }

  /** Appends the rows of one usable entry, one per value, to `rows`. */
  method AppendEntryRows(rows: seq<Row>, columnNameToId: map<string, string>, healthCode: string, versionNum: int,
                         entry: DemographicEntry) returns (result: seq<Row>)
    requires UsableEntry(entry)
    ensures result == rows + EntryRows(columnNameToId, healthCode, versionNum, entry)
  {
    var categoryName := entry.category.value;
    var demographic := entry.response.value;
    var units := demographic.units;
    ghost var entryRows := EntryRows(columnNameToId, healthCode, versionNum, entry);
    result := rows;
    for v := 0 to |demographic.values|
      invariant result == rows + entryRows[..v]
    {
      var value := demographic.values[v];
      var rowMap := map[];
      rowMap := rowMap[Key(columnNameToId, COLUMN_NAME_HEALTH_CODE) := healthCode];
      rowMap := rowMap[Key(columnNameToId, COLUMN_NAME_PARTICIPANT_VERSION) := IntToString(versionNum)];
      rowMap := rowMap[Key(columnNameToId, COLUMN_NAME_DEMOGRAPHIC_CATEGORY_NAME) := categoryName];
      rowMap := rowMap[Key(columnNameToId, COLUMN_NAME_DEMOGRAPHIC_VALUE) := value];
      rowMap := PutIfPresent(columnNameToId, rowMap, COLUMN_NAME_DEMOGRAPHIC_UNITS, units);
      result := result + [rowMap];
      assert entryRows[..v + 1] == entryRows[..v] + [entryRows[v]];
    }
    assert entryRows[..|demographic.values|] == entryRows;
  }

  /**
   * Builds one row per demographic value; no rows at all when the health code or
   * the version number is missing, as the rows could not be joined to the
   * participant-version table.
   */
  method MakeRowsForParticipantVersionDemographics(columnNameToId: map<string, string>,
                                                   participantVersion: ParticipantVersion)
    returns (rows: seq<Row>)
    ensures participantVersion.healthCode.None? || participantVersion.participantVersion.None? ==> rows == []
    ensures participantVersion.healthCode.Some? && participantVersion.participantVersion.Some? ==>
              rows == DemographicRows(columnNameToId, participantVersion.healthCode.value,
                                      participantVersion.participantVersion.value, Entries(participantVersion))
  {
    var healthCode := participantVersion.healthCode;
    var versionNum := participantVersion.participantVersion;
    if healthCode.None? || versionNum.None? {
      return [];
    }
    rows := [];
    var entries := Entries(participantVersion);
    for k := 0 to |entries|
      invariant rows == DemographicRows(columnNameToId, healthCode.value, versionNum.value, entries[..k])
    {
      var entry := entries[k];
      assert entries[..k + 1][..k] == entries[..k];
      if entry.category.None? || entry.response.None? {
        continue;
      }
      rows := AppendEntryRows(rows, columnNameToId, healthCode.value, versionNum.value, entry);
    }
    assert entries[..|entries|] == entries;
  }

  lemma {:induction false} ValueCountAppend(entries: seq<DemographicEntry>, e: DemographicEntry)
    ensures ValueCount(entries + [e]) == ValueCount(entries) + (if UsableEntry(e) then |e.response.value.values| else 0)
  {
    if entries != [] {
      assert (entries + [e])[1..] == entries[1..] + [e];
      ValueCountAppend(entries[1..], e);
    }
  }

  /** There is one row per value of every usable entry. */
  lemma {:induction false} DemographicRowsCount(columnNameToId: map<string, string>, healthCode: string,
                                                versionNum: int, entries: seq<DemographicEntry>)
    ensures |DemographicRows(columnNameToId, healthCode, versionNum, entries)| == ValueCount(entries)
  {
    if entries != [] {
      var init := entries[..|entries| - 1];
      DemographicRowsCount(columnNameToId, healthCode, versionNum, init);
      ValueCountAppend(init, entries[|entries| - 1]);
      assert init + [entries[|entries| - 1]] == entries;
    }
  }

  /** `row` is a row for a value of entry `e`: join keys, category, value and units as the entry says. */
  ghost predicate RowOfEntry(columnNameToId: map<string, string>, healthCode: string, versionNum: int,
                             row: Row, e: DemographicEntry)
  {
    && UsableEntry(e)
    && HasCell(row, Key(columnNameToId, COLUMN_NAME_HEALTH_CODE), Some(healthCode))
    && HasCell(row, Key(columnNameToId, COLUMN_NAME_PARTICIPANT_VERSION), Some(IntToString(versionNum)))
    && HasCell(row, Key(columnNameToId, COLUMN_NAME_DEMOGRAPHIC_CATEGORY_NAME), e.category)
    && Key(columnNameToId, COLUMN_NAME_DEMOGRAPHIC_VALUE) in row
    && row[Key(columnNameToId, COLUMN_NAME_DEMOGRAPHIC_VALUE)] in e.response.value.values
    && HasCell(row, Key(columnNameToId, COLUMN_NAME_DEMOGRAPHIC_UNITS), e.response.value.units)
  }

  lemma DemographicRowOfEntry(columnNameToId: map<string, string>, healthCode: string, versionNum: int,
                              e: DemographicEntry, i: nat)
    requires ColumnsResolved(columnNameToId, DEMOGRAPHICS_COLUMNS)
    requires UsableEntry(e) && i < |e.response.value.values|
    ensures RowOfEntry(columnNameToId, healthCode, versionNum,
                       DemographicRow(columnNameToId, healthCode, versionNum, e.category.value,
                                      e.response.value.values[i], e.response.value.units), e)
    ensures var row := DemographicRow(columnNameToId, healthCode, versionNum, e.category.value,
                                      e.response.value.values[i], e.response.value.units);
            Key(columnNameToId, COLUMN_NAME_DEMOGRAPHIC_VALUE) in row
            && row[Key(columnNameToId, COLUMN_NAME_DEMOGRAPHIC_VALUE)] == e.response.value.values[i]
  {
    var cols := DEMOGRAPHICS_COLUMNS;
    assert cols[0] in columnNameToId && cols[1] in columnNameToId && cols[2] in columnNameToId;
    assert cols[3] in columnNameToId && cols[4] in columnNameToId;
  }

  /**
   * Every row carries the health code, the version number, the category of a usable
   * entry and one of its values, and a units cell exactly when that entry has units.
   */
  lemma {:induction false} DemographicRowsContent(columnNameToId: map<string, string>, healthCode: string,
                                                  versionNum: int, entries: seq<DemographicEntry>)
    requires ColumnsResolved(columnNameToId, DEMOGRAPHICS_COLUMNS)
    ensures forall row :: row in DemographicRows(columnNameToId, healthCode, versionNum, entries) ==>
              exists i :: 0 <= i < |entries| && RowOfEntry(columnNameToId, healthCode, versionNum, row, entries[i])
  {
    if entries != [] {
      var n := |entries| - 1;
      var init := entries[..n];
      DemographicRowsContent(columnNameToId, healthCode, versionNum, init);
      forall row | row in DemographicRows(columnNameToId, healthCode, versionNum, entries)
        ensures exists i :: 0 <= i < |entries| && RowOfEntry(columnNameToId, healthCode, versionNum, row, entries[i])
      {
        var lastRows := EntryRows(columnNameToId, healthCode, versionNum, entries[n]);
        if row in lastRows {
          var v :| 0 <= v < |lastRows| && lastRows[v] == row;
          DemographicRowOfEntry(columnNameToId, healthCode, versionNum, entries[n], v);
          assert RowOfEntry(columnNameToId, healthCode, versionNum, row, entries[n]);
        } else {
          assert row in DemographicRows(columnNameToId, healthCode, versionNum, init);
          var i :| 0 <= i < |init| && RowOfEntry(columnNameToId, healthCode, versionNum, row, init[i]);
          assert init[i] == entries[i];
        }
      }
    }
  }

  /**
   * Every value of every usable entry has its own row: the row built from that value,
   * with the entry's category and units, is among the rows.
   */
  lemma {:induction false} DemographicRowsCoverValues(columnNameToId: map<string, string>, healthCode: string,
                                                      versionNum: int, entries: seq<DemographicEntry>)
    ensures forall i, j :: 0 <= i < |entries| && UsableEntry(entries[i])
                           && 0 <= j < |entries[i].response.value.values| ==>
              DemographicRow(columnNameToId, healthCode, versionNum, entries[i].category.value,
                             entries[i].response.value.values[j], entries[i].response.value.units)
              in DemographicRows(columnNameToId, healthCode, versionNum, entries)
  {
    if entries != [] {
      var n := |entries| - 1;
      var init := entries[..n];
      DemographicRowsCoverValues(columnNameToId, healthCode, versionNum, init);
      var rows := DemographicRows(columnNameToId, healthCode, versionNum, entries);
      var lastRows := EntryRows(columnNameToId, healthCode, versionNum, entries[n]);
      assert rows == DemographicRows(columnNameToId, healthCode, versionNum, init) + lastRows;
      forall i, j | 0 <= i < |entries| && UsableEntry(entries[i]) && 0 <= j < |entries[i].response.value.values|
        ensures DemographicRow(columnNameToId, healthCode, versionNum, entries[i].category.value,
                               entries[i].response.value.values[j], entries[i].response.value.units) in rows
      {
        if i == n {
          assert lastRows[j] == DemographicRow(columnNameToId, healthCode, versionNum, entries[i].category.value,
                                               entries[i].response.value.values[j], entries[i].response.value.units);
        } else {
          assert init[i] == entries[i];
        }
      }
    }
  }
}
