/**
 * The worker platform's DynamoDB bookkeeping, over an in-memory model of the
 * tables. Every table is a map from its primary key to the attributes the
 * helper reads or writes; an item that does not exist is a key that is
 * absent, an attribute that is not set is `None`.
 *
 * The lookups are functions of the table they read; the operations that
 * write are methods of `DynamoHelper`, which holds the tables as fields.
 */
module DynamoTables {
  import opened Wrappers

  const SUFFIX_DEFAULT := "-default"

  // ---------------------------------------------------------------------------
  // Default (schemaless) Synapse table, in the Synapse meta table
  // ---------------------------------------------------------------------------

  /** The meta-table key under which a study's default table is kept. */
  function DefaultTableKey(studyId: string): string
  {
    studyId + SUFFIX_DEFAULT
  }

  /** Different studies keep their default tables under different keys. */
  lemma DefaultTableKeyInjective(a: string, b: string)
    requires DefaultTableKey(a) == DefaultTableKey(b)
    ensures a == b
  {
    assert |a| == |b|;
    assert a == DefaultTableKey(a)[..|a|];
    assert b == DefaultTableKey(b)[..|b|];
  }

  /**
   * The table ID of the study's default table: `None` when the meta table has
   * no item for it, or the item has no table ID.
   */
  function GetDefaultSynapseTableForStudy(synapseMetaTable: map<string, Option<string>>, studyId: string)
    : (tableId: Option<string>)
    ensures DefaultTableKey(studyId) !in synapseMetaTable ==> tableId.None?
    ensures DefaultTableKey(studyId) in synapseMetaTable ==> tableId == synapseMetaTable[DefaultTableKey(studyId)]
  {
    var key := studyId + SUFFIX_DEFAULT;
    if key !in synapseMetaTable then None else synapseMetaTable[key]
  }

  /** After a study's default table is deleted, reading it yields nothing, and every other study reads as before. */
  lemma DefaultTableAfterDelete(synapseMetaTable: map<string, Option<string>>, studyId: string, otherStudyId: string)
    ensures GetDefaultSynapseTableForStudy(synapseMetaTable - {DefaultTableKey(studyId)}, studyId).None?
    ensures otherStudyId != studyId ==>
              GetDefaultSynapseTableForStudy(synapseMetaTable - {DefaultTableKey(studyId)}, otherStudyId)
              == GetDefaultSynapseTableForStudy(synapseMetaTable, otherStudyId)
  {
    if DefaultTableKey(otherStudyId) == DefaultTableKey(studyId) {
      DefaultTableKeyInjective(otherStudyId, studyId);
    }
  }

  // ---------------------------------------------------------------------------
  // Notification log
  // ---------------------------------------------------------------------------

  /** A constant of the `NotificationType` enum, by name. */
  datatype NotificationType = NotificationType(name: string)

  /** The type of notification-log entries written before the type was recorded. */
  const UNKNOWN := NotificationType("UNKNOWN")

  /** One notification sent to a user; `time` is in epoch milliseconds. */
  datatype UserNotification = UserNotification(userId: string, time: int, message: Option<string>,
                                               notificationType: NotificationType)

  /** The attributes of a notification-log item besides its key (user ID, notification time). */
  datatype LogItem = LogItem(message: Option<string>, notificationType: Option<string>)

  type NotificationLog = map<(string, int), LogItem>

  /** Unicode general category Zs, the space separators. */
  predicate IsSpaceSeparator(c: char)
  {
    var n := c as int;
    n == 0x20 || n == 0xA0 || n == 0x1680 || (0x2000 <= n <= 0x200A) || n == 0x202F || n == 0x205F || n == 0x3000
  }

  /** The space separators that do not break a line: no-break space, figure space, narrow no-break space. */
  predicate IsNonBreakingSpace(c: char)
  {
    var n := c as int;
    n == 0xA0 || n == 0x2007 || n == 0x202F
  }

  /**
   * `Character.isWhitespace`: the ASCII tab, line feed, vertical tab, form feed,
   * carriage return and the four information separators, and the Unicode space,
   * line and paragraph separators other than the non-breaking ones.
   */
  predicate IsWhitespace(c: char)
    ensures IsWhitespace(c) <==>
              var n := c as int;
              (0x09 <= n <= 0x0D) || (0x1C <= n <= 0x1F)
              || ((IsSpaceSeparator(c) || n == 0x2028 || n == 0x2029) && !IsNonBreakingSpace(c))
  {
    var n := c as int;
    (0x09 <= n <= 0x0D) || (0x1C <= n <= 0x20) || n == 0x1680 || (0x2000 <= n <= 0x2006)
    || (0x2008 <= n <= 0x200A) || n == 0x2028 || n == 0x2029 || n == 0x205F || n == 0x3000
  }

  /** `s` with its leading whitespace removed. */
  function StripLeadingWhitespace(s: string): (r: string)
    ensures |r| <= |s| && r == s[|s| - |r|..]
    ensures r == "" <==> forall i :: 0 <= i < |s| ==> IsWhitespace(s[i])
    ensures r != "" ==> !IsWhitespace(r[0])
    ensures forall i :: 0 <= i < |s| - |r| ==> IsWhitespace(s[i])
  {
    if |s| > 0 && IsWhitespace(s[0]) then
      var r := StripLeadingWhitespace(s[1..]);
      assert forall i :: 1 <= i < |s| ==> s[i] == s[1..][i - 1];
      r
    else s
  }

  /** `StringUtils.isNotBlank`: present and holding a character that is not whitespace. */
  predicate IsNotBlank(s: Option<string>)
  {
    s.Some? && exists i :: 0 <= i < |s.value| && !IsWhitespace(s.value[i])
  }

  /** `isNotBlank` is `isBlank` negated: not `null`, and something is left once the leading whitespace is stripped. */
  lemma IsNotBlankStripped(s: Option<string>)
    ensures IsNotBlank(s) <==> s.Some? && StripLeadingWhitespace(s.value) != ""
  {
  }

  /**
   * Reads the stored notification type: a blank or missing one is `UNKNOWN`;
   * any other must be, as written, the name of an enum constant
   * (`typeNames`), or `valueOf` throws.
   */
  function ParseNotificationType(stored: Option<string>, typeNames: set<string>): (r: Result<NotificationType>)
    ensures !IsNotBlank(stored) ==> r == Success(UNKNOWN)
    ensures IsNotBlank(stored) ==> (r.Success? <==> stored.value in typeNames)
    ensures IsNotBlank(stored) && r.Success? ==> r.value.name == stored.value
  {
    if IsNotBlank(stored) then
      if stored.value in typeNames then Success(NotificationType(stored.value))
      else Failure("No enum constant NotificationType." + stored.value)
    else
      Success(UNKNOWN)
  }

  /** The keys of the items logged for a user. */
  function UserKeys(log: NotificationLog, userId: string): (keys: set<(string, int)>)
    ensures forall k :: k in keys <==> k in log && k.0 == userId
  {
    set k | k in log && k.0 == userId
  }

  /** `m` is one of `keys` and its time is no earlier than any of theirs. */
  predicate IsLatest(m: (string, int), keys: set<(string, int)>)
  {
    m in keys && forall k :: k in keys ==> k.1 <= m.1
  }

  /** Adding `x` to keys whose latest is `m` leaves the later of the two the latest. */
  lemma LatestWith(x: (string, int), m: (string, int), others: set<(string, int)>)
    requires IsLatest(m, others)
    ensures IsLatest(if x.1 <= m.1 then m else x, others + {x})
  {
  }

  lemma {:induction false} LatestExists(keys: set<(string, int)>)
    requires keys != {}
    ensures exists m :: IsLatest(m, keys)
  {
    var x :| x in keys;
    var others := keys - {x};
    assert others + {x} == keys;
    if others == {} {
      assert IsLatest(x, keys);
    } else {
      LatestExists(others);
      var m :| IsLatest(m, others);
      LatestWith(x, m, others);
    }
  }

  /** The key with the greatest time among the keys of one user: what a descending query limited to one item reads. */
  function Latest(userId: string, keys: set<(string, int)>): (m: (string, int))
    requires keys != {}
    requires forall k :: k in keys ==> k.0 == userId
    ensures IsLatest(m, keys)
  {
    LatestExists(keys);
    var m :| IsLatest(m, keys);
    m
  }

  /**
   * The user's most recent notification: the log item with the greatest
   * notification time for the user, or `None` when the user has never been
   * notified. A `Failure` is the exception parsing its stored type throws.
   */
  function GetLastNotificationTimeForUser(log: NotificationLog, userId: string, typeNames: set<string>)
    : (r: Result<Option<UserNotification>>)
    ensures r == Success(None) <==> forall k :: k in log ==> k.0 != userId
    ensures r.Success? && r.value.Some? ==>
              var n := r.value.value;
              n.userId == userId && (userId, n.time) in log
              && (forall k :: k in log && k.0 == userId ==> k.1 <= n.time)
              && n.message == log[(userId, n.time)].message
              && (!IsNotBlank(log[(userId, n.time)].notificationType) ==> n.notificationType == UNKNOWN)
              && (IsNotBlank(log[(userId, n.time)].notificationType) ==>
                    n.notificationType.name == log[(userId, n.time)].notificationType.value)
    ensures r.Success? && r.value.Some? ==>
              ParseNotificationType(log[(userId, r.value.value.time)].notificationType, typeNames)
              == Success(r.value.value.notificationType)
    ensures r.Failure? <==>
              exists t :: (userId, t) in log && (forall k :: k in log && k.0 == userId ==> k.1 <= t)
                          && IsNotBlank(log[(userId, t)].notificationType)
                          && log[(userId, t)].notificationType.value !in typeNames
  {
    var keys := UserKeys(log, userId);
    if keys == {} then
      Success(None)
    else
      var key := Latest(userId, keys);
      var item := log[key];
      match ParseNotificationType(item.notificationType, typeNames)
      case Failure(e) => Failure(e)
      case Success(notificationType) =>
        Success(Some(UserNotification(userId, key.1, item.message, notificationType)))
  }

  /** The log item `setLastNotificationTimeForUser` writes for a notification. */
  function LogItemOf(n: UserNotification): LogItem
  {
    LogItem(n.message, Some(n.notificationType.name))
  }

  /** A notification logged later than every earlier one for its user is read back as the latest. */
  lemma LastNotificationAfterSet(log: NotificationLog, n: UserNotification, typeNames: set<string>)
    requires forall k :: k in log && k.0 == n.userId ==> k.1 <= n.time
    requires n.notificationType.name in typeNames && IsNotBlank(Some(n.notificationType.name))
    ensures GetLastNotificationTimeForUser(log[(n.userId, n.time) := LogItemOf(n)], n.userId, typeNames)
            == Success(Some(n))
  {
    var log' := log[(n.userId, n.time) := LogItemOf(n)];
    var keys := UserKeys(log', n.userId);
    assert IsLatest((n.userId, n.time), keys);
    assert Latest(n.userId, keys) == (n.userId, n.time);
  }

  /** Logging a notification older than the user's latest leaves the latest one in place. */
  lemma LastNotificationAfterOlderSet(log: NotificationLog, n: UserNotification, typeNames: set<string>, later: int)
    requires (n.userId, later) in log && n.time < later
    ensures GetLastNotificationTimeForUser(log[(n.userId, n.time) := LogItemOf(n)], n.userId, typeNames)
            == GetLastNotificationTimeForUser(log, n.userId, typeNames)
  {
    var log' := log[(n.userId, n.time) := LogItemOf(n)];
    var keys := UserKeys(log, n.userId);
    var keys' := UserKeys(log', n.userId);
    assert keys' == keys + {(n.userId, n.time)};
    assert (n.userId, later) in keys;
    var m := Latest(n.userId, keys);
    assert IsLatest(m, keys');
    assert Latest(n.userId, keys') == m;
    assert log'[m] == log[m];
  }

  // ---------------------------------------------------------------------------
  // Survey tables of a study
  // ---------------------------------------------------------------------------

  /** Study ID to the study's item, whose table-ID-set attribute may be unset. */
  type SurveyTablesTable = map<string, Option<set<string>>>

  /** The survey table IDs of a study: empty, never `null`, when the item or its attribute is missing. */
  function GetSynapseSurveyTablesForStudy(synapseSurveyTablesTable: SurveyTablesTable, studyId: string)
    : (tableIds: set<string>)
    ensures studyId !in synapseSurveyTablesTable || synapseSurveyTablesTable[studyId].None? ==> tableIds == {}
    ensures studyId in synapseSurveyTablesTable && synapseSurveyTablesTable[studyId].Some? ==>
              tableIds == synapseSurveyTablesTable[studyId].value
  {
    if studyId !in synapseSurveyTablesTable then {}
    else
      var tableIdSet := synapseSurveyTablesTable[studyId];
      if tableIdSet.None? then {} else tableIdSet.value
  }

  /**
   * The survey-tables table after `tableId` is removed from the study's set:
   * unchanged when the study or the ID is not there; an emptied set is stored
   * as an unset attribute, since DynamoDB refuses empty sets.
   */
  function SurveyTablesAfterDelete(synapseSurveyTablesTable: SurveyTablesTable, studyId: string, tableId: string)
    : SurveyTablesTable
  {
    if tableId in GetSynapseSurveyTablesForStudy(synapseSurveyTablesTable, studyId) then
      var remaining := GetSynapseSurveyTablesForStudy(synapseSurveyTablesTable, studyId) - {tableId};
      synapseSurveyTablesTable[studyId := if remaining == {} then None else Some(remaining)]
    else
      synapseSurveyTablesTable
  }

  /** No item stores an empty table-ID set. */
  ghost predicate NoEmptySets(synapseSurveyTablesTable: SurveyTablesTable)
  {
    forall s :: s in synapseSurveyTablesTable ==> synapseSurveyTablesTable[s] != Some({})
  }

  /** Deleting removes exactly `tableId` from the study's survey tables and leaves every other study's item as it was. */
  lemma SurveyTablesDelete(synapseSurveyTablesTable: SurveyTablesTable, studyId: string, tableId: string)
    ensures var after := SurveyTablesAfterDelete(synapseSurveyTablesTable, studyId, tableId);
            GetSynapseSurveyTablesForStudy(after, studyId)
            == GetSynapseSurveyTablesForStudy(synapseSurveyTablesTable, studyId) - {tableId}
            && after.Keys == synapseSurveyTablesTable.Keys
            && forall s :: s in after && s != studyId ==> after[s] == synapseSurveyTablesTable[s]
  {
  }

  /** Deleting a table ID the study does not list changes nothing. */
  lemma SurveyTablesDeleteAbsent(synapseSurveyTablesTable: SurveyTablesTable, studyId: string, tableId: string)
    requires tableId !in GetSynapseSurveyTablesForStudy(synapseSurveyTablesTable, studyId)
    ensures SurveyTablesAfterDelete(synapseSurveyTablesTable, studyId, tableId) == synapseSurveyTablesTable
  {
  }

  /** Deleting twice is deleting once. */
  lemma SurveyTablesDeleteIdempotent(synapseSurveyTablesTable: SurveyTablesTable, studyId: string, tableId: string)
    ensures var once := SurveyTablesAfterDelete(synapseSurveyTablesTable, studyId, tableId);
            SurveyTablesAfterDelete(once, studyId, tableId) == once
  {
    SurveyTablesDelete(synapseSurveyTablesTable, studyId, tableId);
  }

  /** Deleting never leaves an empty set stored. */
  lemma SurveyTablesDeleteKeepsNoEmptySets(synapseSurveyTablesTable: SurveyTablesTable, studyId: string, tableId: string)
    requires NoEmptySets(synapseSurveyTablesTable)
    ensures NoEmptySets(SurveyTablesAfterDelete(synapseSurveyTablesTable, studyId, tableId))
  {
  }

  // ---------------------------------------------------------------------------
  // Upload schemas and their Synapse tables
  // ---------------------------------------------------------------------------

  /** An upload schema, by its study, its key (as `UploadSchemaKey.toString` renders it) and its revision. */
  datatype UploadSchema = UploadSchema(studyId: string, key: string, revision: int)

  /** Schema key to Synapse table ID; several schemas may share a table. */
  type SynapseMapTable = map<string, string>

  /** The schema has a mapping, and it points at `tableId`. */
  ghost predicate MapsTo(synapseMapTable: SynapseMapTable, schema: UploadSchema, tableId: string)
  {
    schema.key in synapseMapTable && synapseMapTable[schema.key] == tableId
  }

  /** The schemas the study index lists for a study. */
  ghost function StudySchemas(uploadSchemaTable: seq<UploadSchema>, studyId: string): set<UploadSchema>
  {
    set s | s in uploadSchemaTable && s.studyId == studyId
  }

  /**
   * `result` maps exactly the table IDs the schemas map to, each to one of the
   * schemas mapping to it with the highest revision among them.
   */
  ghost predicate Canonical(result: map<string, UploadSchema>, schemas: set<UploadSchema>,
                            synapseMapTable: SynapseMapTable)
  {
    (forall t :: t in result <==> exists s :: s in schemas && MapsTo(synapseMapTable, s, t))
    && forall t :: t in result ==>
         result[t] in schemas && MapsTo(synapseMapTable, result[t], t)
         && forall s :: s in schemas && MapsTo(synapseMapTable, s, t) ==> s.revision <= result[t].revision
  }

  /** No two schemas that map to the same table share a revision. */
  ghost predicate DistinctRevisions(schemas: set<UploadSchema>, synapseMapTable: SynapseMapTable)
  {
    forall s1, s2 :: s1 in schemas && s2 in schemas && s1 != s2 && s1.key in synapseMapTable
                     && s2.key in synapseMapTable && synapseMapTable[s1.key] == synapseMapTable[s2.key]
                     ==> s1.revision != s2.revision
  }

  /** Two canonical maps pick the same schema for a table when revisions are distinct. */
  lemma CanonicalAgreeAt(r1: map<string, UploadSchema>, r2: map<string, UploadSchema>, schemas: set<UploadSchema>,
                         synapseMapTable: SynapseMapTable, tableId: string)
    requires Canonical(r1, schemas, synapseMapTable) && Canonical(r2, schemas, synapseMapTable)
    requires DistinctRevisions(schemas, synapseMapTable)
    requires tableId in r1 && tableId in r2
    ensures r1[tableId] == r2[tableId]
  {
    var a, b := r1[tableId], r2[tableId];
    assert a in schemas && MapsTo(synapseMapTable, a, tableId);
    assert b in schemas && MapsTo(synapseMapTable, b, tableId);
    assert a.revision == b.revision;
  }

  /** When the schemas sharing a table have distinct revisions, the canonical map is unique. */
  lemma CanonicalUnique(r1: map<string, UploadSchema>, r2: map<string, UploadSchema>, schemas: set<UploadSchema>,
                        synapseMapTable: SynapseMapTable)
    requires Canonical(r1, schemas, synapseMapTable) && Canonical(r2, schemas, synapseMapTable)
    requires DistinctRevisions(schemas, synapseMapTable)
    ensures r1 == r2
  {
    assert r1.Keys == r2.Keys by {
      forall t ensures t in r1 <==> t in r2 {
      }
    }
    forall t | t in r1 ensures r1[t] == r2[t] {
      CanonicalAgreeAt(r1, r2, schemas, synapseMapTable, t);
    }
  }

  /** A schema whose mapping was deleted is the canonical schema of no table. */
  lemma CanonicalAfterMappingDelete(result: map<string, UploadSchema>, schemas: set<UploadSchema>,
                                    synapseMapTable: SynapseMapTable, schemaKey: string)
    requires Canonical(result, schemas, synapseMapTable - {schemaKey})
    ensures forall t :: t in result ==> result[t].key != schemaKey
  {
  }

  /**
   * The canonical schema of one table: the first schema, in iteration order,
   * with the highest revision, because a later one replaces it only with a
   * strictly higher revision.
   */
  method CanonicalSchema(schemas: seq<UploadSchema>) returns (canonicalSchema: UploadSchema)
    requires schemas != []
    ensures canonicalSchema in schemas
    ensures forall s :: s in schemas ==> s.revision <= canonicalSchema.revision
    ensures exists i :: 0 <= i < |schemas| && schemas[i] == canonicalSchema
                        && forall j :: 0 <= j < i ==> schemas[j].revision < canonicalSchema.revision
  {
    var canonical: Option<UploadSchema> := None;
    ghost var index := 0;
    for k := 0 to |schemas|
      invariant canonical.None? <==> k == 0
      invariant canonical.Some? ==> 0 <= index < k && schemas[index] == canonical.value
      invariant canonical.Some? ==> forall j :: 0 <= j < k ==> schemas[j].revision <= canonical.value.revision
      invariant canonical.Some? ==> forall j :: 0 <= j < index ==> schemas[j].revision < canonical.value.revision
    {
      if canonical.None? || canonical.value.revision < schemas[k].revision {
        canonical := Some(schemas[k]);
        index := k;
      }
    }
    canonicalSchema := canonical.value;
  }

  /** `HashMultimap`: Synapse table ID to the schemas mapped to it. */
  type TableToSchemas = map<string, seq<UploadSchema>>

  /** `multimap` groups the `schemas` that have a mapping by the table ID they map to. */
  ghost predicate GroupedByTable(multimap: TableToSchemas, schemas: seq<UploadSchema>, synapseMapTable: SynapseMapTable)
  {
    (forall t :: t in multimap <==> exists s :: s in schemas && MapsTo(synapseMapTable, s, t))
    && forall t :: t in multimap ==>
         multimap[t] != [] && forall s :: s in multimap[t] <==> s in schemas && MapsTo(synapseMapTable, s, t)
  }

  /** Putting one more schema into its table's group keeps the multimap grouping the schemas seen so far. */
  lemma GroupedByTableStep(multimap: TableToSchemas, schemas: seq<UploadSchema>, synapseMapTable: SynapseMapTable,
                           schema: UploadSchema)
    requires GroupedByTable(multimap, schemas, synapseMapTable)
    ensures schema.key !in synapseMapTable ==> GroupedByTable(multimap, schemas + [schema], synapseMapTable)
    ensures schema.key in synapseMapTable ==>
              var tableId := synapseMapTable[schema.key];
              var group := if tableId in multimap then multimap[tableId] else [];
              GroupedByTable(multimap[tableId := group + [schema]], schemas + [schema], synapseMapTable)
  {
    var schemas' := schemas + [schema];
    forall s ensures s in schemas' <==> s in schemas || s == schema {
    }
    if schema.key in synapseMapTable {
      var tableId := synapseMapTable[schema.key];
      var group := if tableId in multimap then multimap[tableId] else [];
      var multimap' := multimap[tableId := group + [schema]];
      forall t ensures t in multimap' <==> exists s :: s in schemas' && MapsTo(synapseMapTable, s, t) {
        if t == tableId {
          assert schema in schemas' && MapsTo(synapseMapTable, schema, t);
        } else if t in multimap {
          var s :| s in schemas && MapsTo(synapseMapTable, s, t);
          assert s in schemas';
        }
      }
      forall t | t in multimap'
        ensures forall s :: s in multimap'[t] <==> s in schemas' && MapsTo(synapseMapTable, s, t)
      {
        if t == tableId {
          forall s ensures s in group + [schema] <==> s in group || s == schema {
          }
        }
      }
    }
  }

  /** Every table in `result` holds a schema of its group with the group's highest revision. */
  ghost predicate HighestOfGroups(result: map<string, UploadSchema>, multimap: TableToSchemas)
  {
    forall t :: t in result ==>
      t in multimap && result[t] in multimap[t]
      && forall s :: s in multimap[t] ==> s.revision <= result[t].revision
  }

  lemma HighestOfGroupsStep(result: map<string, UploadSchema>, multimap: TableToSchemas, tableId: string,
                            canonicalSchema: UploadSchema)
    requires HighestOfGroups(result, multimap)
    requires tableId in multimap && canonicalSchema in multimap[tableId]
    requires forall s :: s in multimap[tableId] ==> s.revision <= canonicalSchema.revision
    ensures HighestOfGroups(result[tableId := canonicalSchema], multimap)
  {
  }

  /** Picking the highest revision of every group of the study's mapped schemas gives the canonical map. */
  lemma CanonicalOfGroups(result: map<string, UploadSchema>, multimap: TableToSchemas, schemaList: seq<UploadSchema>,
                          schemas: set<UploadSchema>, synapseMapTable: SynapseMapTable)
    requires GroupedByTable(multimap, schemaList, synapseMapTable)
    requires result.Keys == multimap.Keys && HighestOfGroups(result, multimap)
    requires forall s :: s in schemaList <==> s in schemas
    ensures Canonical(result, schemas, synapseMapTable)
  {
    forall t ensures t in result <==> exists s :: s in schemas && MapsTo(synapseMapTable, s, t) {
      if t in result {
        var s :| s in schemaList && MapsTo(synapseMapTable, s, t);
      }
    }
  }

  /** The DynamoDB tables the worker platform reads and writes. */
  class DynamoHelper {
    /** Synapse meta table: table name to the table ID attribute. */
    var synapseMetaTable: map<string, Option<string>>
    /** Notification log, keyed by user ID and notification time. */
    var notificationLogTable: NotificationLog
    /** Study ID to the study's set of survey table IDs. */
    var synapseSurveyTablesTable: SurveyTablesTable
    /** Schema key to Synapse table ID. */
    var synapseMapTable: SynapseMapTable
    /** The upload schemas, in the order the study index lists them. */
    var uploadSchemaTable: seq<UploadSchema>
    /** Worker log, keyed by worker ID and finish time, holding the tag. */
    var workerLogTable: map<(string, int), string>

    constructor(synapseMetaTable: map<string, Option<string>>, notificationLogTable: NotificationLog,
                synapseSurveyTablesTable: SurveyTablesTable, synapseMapTable: SynapseMapTable,
                uploadSchemaTable: seq<UploadSchema>, workerLogTable: map<(string, int), string>)
      ensures this.synapseMetaTable == synapseMetaTable
      ensures this.notificationLogTable == notificationLogTable
      ensures this.synapseSurveyTablesTable == synapseSurveyTablesTable
      ensures this.synapseMapTable == synapseMapTable
      ensures this.uploadSchemaTable == uploadSchemaTable
      ensures this.workerLogTable == workerLogTable
    {
      this.synapseMetaTable := synapseMetaTable;
      this.notificationLogTable := notificationLogTable;
      this.synapseSurveyTablesTable := synapseSurveyTablesTable;
      this.synapseMapTable := synapseMapTable;
      this.uploadSchemaTable := uploadSchemaTable;
      this.workerLogTable := workerLogTable;
    }

    /** Deletes the study's default-table item from the meta table, and nothing else. */
    method DeleteDefaultSynapseTableForStudy(studyId: string)
      modifies this`synapseMetaTable
      ensures synapseMetaTable == old(synapseMetaTable) - {DefaultTableKey(studyId)}
      ensures GetDefaultSynapseTableForStudy(synapseMetaTable, studyId).None?
    {
      synapseMetaTable := synapseMetaTable - {studyId + SUFFIX_DEFAULT};
      DefaultTableAfterDelete(old(synapseMetaTable), studyId, studyId);
    }

    /** Puts the notification in the log under its user ID and time, replacing an item with that key. */
    method SetLastNotificationTimeForUser(userNotification: UserNotification)
      modifies this`notificationLogTable
      ensures notificationLogTable
              == old(notificationLogTable)[(userNotification.userId, userNotification.time) := LogItemOf(userNotification)]
    {
      var item := LogItem(userNotification.message, Some(userNotification.notificationType.name));
      notificationLogTable := notificationLogTable[(userNotification.userId, userNotification.time) := item];
    }

    /** Removes `tableId` from the study's survey tables: a read, a set removal, and a write back. */
    method DeleteSynapseSurveyTableMapping(studyId: string, tableId: string)
      modifies this`synapseSurveyTablesTable
      ensures synapseSurveyTablesTable == SurveyTablesAfterDelete(old(synapseSurveyTablesTable), studyId, tableId)
    {
      if studyId !in synapseSurveyTablesTable {
        return;
      }
      var tableIdSet := synapseSurveyTablesTable[studyId];
      if tableIdSet.None? || tableId !in tableIdSet.value {
        return;
      }
      var remaining := tableIdSet.value - {tableId};
      var stored := if remaining == {} then None else Some(remaining);
      synapseSurveyTablesTable := synapseSurveyTablesTable[studyId := stored];
    }

    /**
     * The study's Synapse tables, each with its canonical upload schema: the
     * study's schemas are grouped by the table they map to (schemas with no
     * mapping are skipped), and each group keeps a schema of its highest
     * revision.
     */
    method GetSynapseTableIdsForStudy(studyId: string) returns (synapseToSchemaMap: map<string, UploadSchema>)
      ensures Canonical(synapseToSchemaMap, StudySchemas(uploadSchemaTable, studyId), synapseMapTable)
    {
      var schemaList: seq<UploadSchema> := [];
      for i := 0 to |uploadSchemaTable|
        invariant forall s :: s in schemaList <==> s in uploadSchemaTable[..i] && s.studyId == studyId
      {
        assert uploadSchemaTable[..i + 1] == uploadSchemaTable[..i] + [uploadSchemaTable[i]];
        if uploadSchemaTable[i].studyId == studyId {
          schemaList := schemaList + [uploadSchemaTable[i]];
        }
      }
      assert uploadSchemaTable[..|uploadSchemaTable|] == uploadSchemaTable;

      var synapseToSchemaMultimap: TableToSchemas := map[];
      for j := 0 to |schemaList|
        invariant GroupedByTable(synapseToSchemaMultimap, schemaList[..j], synapseMapTable)
      {
        assert schemaList[..j + 1] == schemaList[..j] + [schemaList[j]];
        var oneSchema := schemaList[j];
        GroupedByTableStep(synapseToSchemaMultimap, schemaList[..j], synapseMapTable, oneSchema);
        if oneSchema.key !in synapseMapTable {
          continue;
        }
        var synapseTableId := synapseMapTable[oneSchema.key];
        var group := if synapseTableId in synapseToSchemaMultimap then synapseToSchemaMultimap[synapseTableId] else [];
        synapseToSchemaMultimap := synapseToSchemaMultimap[synapseTableId := group + [oneSchema]];
      }
      assert schemaList[..|schemaList|] == schemaList;

      synapseToSchemaMap := map[];
      var remaining := synapseToSchemaMultimap.Keys;
      while remaining != {}
        invariant remaining <= synapseToSchemaMultimap.Keys
        invariant synapseToSchemaMap.Keys == synapseToSchemaMultimap.Keys - remaining
        invariant HighestOfGroups(synapseToSchemaMap, synapseToSchemaMultimap)
        decreases remaining
      {
        var oneSynapseTableId :| oneSynapseTableId in remaining;
        var canonicalSchema := CanonicalSchema(synapseToSchemaMultimap[oneSynapseTableId]);
        HighestOfGroupsStep(synapseToSchemaMap, synapseToSchemaMultimap, oneSynapseTableId, canonicalSchema);
        synapseToSchemaMap := synapseToSchemaMap[oneSynapseTableId := canonicalSchema];
        remaining := remaining - {oneSynapseTableId};
      }
      CanonicalOfGroups(synapseToSchemaMap, synapseToSchemaMultimap, schemaList,
                        StudySchemas(uploadSchemaTable, studyId), synapseMapTable);
    }

    /** Deletes the schema's mapping to its Synapse table, and nothing else. */
    method DeleteSynapseTableIdMapping(schemaKey: string)
      modifies this`synapseMapTable
      ensures synapseMapTable == old(synapseMapTable) - {schemaKey}
    {
      synapseMapTable := synapseMapTable - {schemaKey};
    }

    /** Records a worker run that finished at `now` (epoch milliseconds) with the given tag. */
    method WriteWorkerLog(workerId: string, tag: string, now: int)
      modifies this`workerLogTable
      ensures workerLogTable == old(workerLogTable)[(workerId, now) := tag]
    {
      workerLogTable := workerLogTable[(workerId, now) := tag];
    }
  }
}
