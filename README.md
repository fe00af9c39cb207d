# Participant-version rows and DynamoDB bookkeeping, in Dafny

This project models two helpers of the Bridge worker platform and proves
properties of them.

**`ParticipantVersionHelper`** (Exporter 3.0) turns a participant version into
Synapse rows.

- The participant-version row is sparse. Every field that is not `null` is put
  under its column's ID:
  - data groups are sorted and comma-joined;
  - languages: the first 10 entries of the caller's own list are cut to at
    most 5 characters in place, later entries stay as they are, and only the
    first 10 are written, as a JSON array;
  - study memberships are written in the canonical `|studyA=extA|studyB=|…|`
    form.
- The demographics rows hold one row per demographic value. There are none
  when the health code or the version number is missing.
- The column-name-to-ID map is built from the table's column models.

**`DynamoHelper`** reads and writes the worker platform's DynamoDB tables. Each
table is modelled as a map from its key to the item's attributes. The class
`DynamoTables.DynamoHelper` holds the tables as fields.

- The table-reading operations are functions of the table they read:
  - the default Synapse table of a study;
  - the survey tables of a study;
  - the latest notification of a user.
- The table-writing operations are methods with `modifies` clauses. They
  delete the default table, delete one survey table ID from a study's set, log
  a notification, delete a schema's table mapping and write the worker log.
- `GetSynapseTableIdsForStudy` groups the study's upload schemas by the
  Synapse table they map to. It keeps the highest revision of each group.

Supporting modules:

- `Strings`:
  - the lexicographic order of `String.compareTo`;
  - `Collections.sort` as a sort proved to be a sorted permutation;
  - Guava's `Joiner`;
  - `String.valueOf` of integers.
- `Json`: Jackson's writer for a list of strings, with a reader proved to
  invert it.
- `Wrappers`: `Option` for Java's `null` and `Result` for a thrown exception.

Java's `null` is `None` for every field and result that can be `null`. `null` elements inside collections are not modelled. A column name that the table does not have
maps to a `null` column ID, which `HashMap` accepts as a key. A row's key
type is therefore `Option<string>`.

## Model

| member | source | states |
|---|---|---|
| ParticipantVersionHelper.GetColumnNameToIdMap | src/main/java/org/sagebionetworks/bridge/exporter3/ParticipantVersionHelper.java:186-193 | The map's keys are exactly the column names. Each name maps to the ID of its last column model, because a later `put` replaces an earlier one. |
| ParticipantVersionHelper.StudyMemberships | src/main/java/org/sagebionetworks/bridge/exporter3/ParticipantVersionHelper.java:202-205 | The serialisation is `null` exactly when the memberships map is `null` or empty. |
| ParticipantVersionHelper.SerializeStudyMemberships | src/main/java/org/sagebionetworks/bridge/exporter3/ParticipantVersionHelper.java:202-225 | The loop that builds the pairs, then sorts and joins them, yields the memberships serialisation. |
| ParticipantVersionHelper.StudyMembershipsFilter | src/main/java/org/sagebionetworks/bridge/exporter3/ParticipantVersionHelper.java:207-210 | With a study filter, the output is exactly one pair, the filter study's, with a pipe on each side. Every other membership is ignored. |
| ParticipantVersionHelper.StudyMembershipsAll | src/main/java/org/sagebionetworks/bridge/exporter3/ParticipantVersionHelper.java:211-224 | Without a filter, the output is the pairs joined by pipes, with a pipe at each end. The pairs are sorted, there is one per study, and every pair is some study's `studyId=value`. |
| ParticipantVersionHelper.PairsOfStudies | src/main/java/org/sagebionetworks/bridge/exporter3/ParticipantVersionHelper.java:216-222 | For any listing of exactly the member studies, every member study's `studyId=value` pair is among the pairs built, and every pair built is some member study's pair. |
| ParticipantVersionHelper.StudyMembershipsFromSorted | src/main/java/org/sagebionetworks/bridge/exporter3/ParticipantVersionHelper.java:212-224 | Any sorted arrangement of the study IDs and of the pairs gives the same output, so the result does not depend on `HashMap` order. |
| ParticipantVersionHelper.StudyMembershipsExample | src/main/java/org/sagebionetworks/bridge/exporter3/ParticipantVersionHelper.java:196-198 | The documented example `{studyA:ext-A, studyB:<none>, studyC:ext-C}` serialises to the pairs `studyA=ext-A`, `studyB=` and `studyC=ext-C`, with pipes between and around them. `<none>` becomes an empty value. |
| ParticipantVersionHelper.StudyMembershipsFilterExample | src/main/java/org/sagebionetworks/bridge/exporter3/ParticipantVersionHelper.java:200 | Filtering `{studyA:extA, studyB:extB}` to `studyB` gives the single pair `studyB=extB` between pipes. |
| ParticipantVersionHelper.StudyMembershipsFilterNotMember | src/main/java/org/sagebionetworks/bridge/exporter3/ParticipantVersionHelper.java:219-221 | A filter study that is not a member serialises as the pair `studyX=null` between pipes, because `map.get` yields `null` and string concatenation renders it as `null`. |
| ParticipantVersionHelper.DataGroupsIgnoreOrder | src/main/java/org/sagebionetworks/bridge/exporter3/ParticipantVersionHelper.java:90-96 | Any two orderings of the same data groups serialise to the same string. |
| ParticipantVersionHelper.DataGroupsFromSorted | src/main/java/org/sagebionetworks/bridge/exporter3/ParticipantVersionHelper.java:93-95 | The data-groups value is the comma-join of the sorted arrangement of the groups. |
| ParticipantVersionHelper.DataGroupsExample | src/main/java/org/sagebionetworks/bridge/exporter3/ParticipantVersionHelper.java:90-96 | Groups `b, a, c` serialise to `a,b,c`. |
| ParticipantVersionHelper.SanitizedLanguagesBounds | src/main/java/org/sagebionetworks/bridge/exporter3/ParticipantVersionHelper.java:100-116 | The sanitised list has length min(n, 10) and keeps the input's order. Each entry is the input entry if it is at most 5 characters long, and its first 5 characters otherwise. |
| ParticipantVersionHelper.SanitizedLanguagesIdempotent | src/main/java/org/sagebionetworks/bridge/exporter3/ParticipantVersionHelper.java:100-116 | Sanitising a sanitised list changes nothing. |
| ParticipantVersionHelper.SanitizedLanguagesWithinBounds | src/main/java/org/sagebionetworks/bridge/exporter3/ParticipantVersionHelper.java:100-116 | A list already within both bounds is left as it is. |
| ParticipantVersionHelper.SerializedLanguagesRoundTrip | src/main/java/org/sagebionetworks/bridge/exporter3/ParticipantVersionHelper.java:118-121 | Reading the JSON array back gives exactly the sanitised list. |
| ParticipantVersionHelper.SerializeLanguages | src/main/java/org/sagebionetworks/bridge/exporter3/ParticipantVersionHelper.java:97-121 | The in-place loop writes the sanitised entries into the caller's list. Entries past the 10th are untouched. The value is the JSON array of the sanitised list. |
| ParticipantVersionHelper.RowForKeys | src/main/java/org/sagebionetworks/bridge/exporter3/ParticipantVersionHelper.java:74-136 | A row built by conditional `put`s has exactly the keys of the columns whose value is not `null`. |
| ParticipantVersionHelper.RowForCell | src/main/java/org/sagebionetworks/bridge/exporter3/ParticipantVersionHelper.java:74-136 | When the column IDs are present and distinct, each column holds its value if there is one and no cell otherwise. |
| ParticipantVersionHelper.MakeRowForParticipantVersion | src/main/java/org/sagebionetworks/bridge/exporter3/ParticipantVersionHelper.java:64-140 | The row is the participant version's fields put under their columns, in the source's order. The caller's language list ends up sanitised in place. |
| ParticipantVersionHelper.ParticipantVersionRowCells | src/main/java/org/sagebionetworks/bridge/exporter3/ParticipantVersionHelper.java:74-136 | Each non-null field yields exactly one cell under its column's ID, null fields yield none, and the row holds nothing else. |
| ParticipantVersionHelper.AppendEntryRows | src/main/java/org/sagebionetworks/bridge/exporter3/ParticipantVersionHelper.java:158-174 | The inner loop appends the rows of one entry, one per value and in order. |
| ParticipantVersionHelper.MakeRowsForParticipantVersionDemographics | src/main/java/org/sagebionetworks/bridge/exporter3/ParticipantVersionHelper.java:142-179 | There are no rows when the health code or the version is `null`. Otherwise the rows are those of each usable entry in turn. |
| ParticipantVersionHelper.DemographicRowsCount | src/main/java/org/sagebionetworks/bridge/exporter3/ParticipantVersionHelper.java:152-176 | The number of rows is the total number of values over the entries whose category and response are not `null`. |
| ParticipantVersionHelper.DemographicRowOfEntry | src/main/java/org/sagebionetworks/bridge/exporter3/ParticipantVersionHelper.java:162-172 | The row built for the entry's i-th value carries the health code, the version, the category, and exactly that i-th value in the value column. The units cell is present only when the units are not `null`. |
| ParticipantVersionHelper.DemographicRowsCoverValues | src/main/java/org/sagebionetworks/bridge/exporter3/ParticipantVersionHelper.java:152-176 | Every value of every entry whose category and response are not `null` has its own row among the rows: the one built from that value with the entry's category and units. |
| ParticipantVersionHelper.DemographicRowsContent | src/main/java/org/sagebionetworks/bridge/exporter3/ParticipantVersionHelper.java:152-176 | Every row comes from a usable entry and carries that entry's category and one of its values. |
| Strings.SortStrings | src/main/java/org/sagebionetworks/bridge/exporter3/ParticipantVersionHelper.java:94 | `Collections.sort` returns a sorted permutation of its input. |
| Strings.SortedUnique | src/main/java/org/sagebionetworks/bridge/exporter3/ParticipantVersionHelper.java:223 | Two sorted permutations of the same strings are equal. |
| Strings.SortIgnoresOrder | src/main/java/org/sagebionetworks/bridge/exporter3/ParticipantVersionHelper.java:93-94 | Sorting does not depend on the input's order. |
| Strings.SortedElements | src/main/java/org/sagebionetworks/bridge/exporter3/ParticipantVersionHelper.java:213-214 | The key set copied into a list and sorted holds each key once, in order. |
| Strings.SortedElementsMembers | src/main/java/org/sagebionetworks/bridge/exporter3/ParticipantVersionHelper.java:213-214 | The sorted copy of the key set has one entry per key and no other entries. |
| Strings.Mismatch | src/main/java/org/sagebionetworks/bridge/exporter3/ParticipantVersionHelper.java:94 | The length of the longest common prefix: the two strings agree before it and differ at it, unless one of them ends there. This is where `String.compareTo` stops comparing. |
| Strings.LessEq | src/main/java/org/sagebionetworks/bridge/exporter3/ParticipantVersionHelper.java:94 | The order used by `Collections.sort`: `a` sorts no later than `b` exactly when `String.compareTo(a, b) <= 0`, that is, the first differing characters are in order or `a` is a prefix of `b`. |
| Strings.Join | src/main/java/org/sagebionetworks/bridge/exporter3/ParticipantVersionHelper.java:95 | Guava's `Joiner.join`: no parts give the empty string. Otherwise the length is the parts' total length plus one separator between each pair of neighbours, and the result begins with the first part. |
| Strings.JoinAppend | src/main/java/org/sagebionetworks/bridge/exporter3/ParticipantVersionHelper.java:224 | `Joiner` appends each further part after one separator, so joining one more part extends the joined string by the separator and that part. |
| Strings.NatToString | src/main/java/org/sagebionetworks/bridge/exporter3/ParticipantVersionHelper.java:83-88 | The decimal rendering of a non-negative number is non-empty, all digits, has no leading zero (0 is written `0`), and the digits denote the number. |
| Strings.IntToString | src/main/java/org/sagebionetworks/bridge/exporter3/ParticipantVersionHelper.java:78-88 | `String.valueOf` and `Integer.toString`: the result is never empty; a non-negative number is its digits (0 is `0`), a negative one a minus sign followed by the digits of its magnitude, and the digits denote the number with no leading zero. |
| Json.EscapeChar | src/main/java/org/sagebionetworks/bridge/exporter3/ParticipantVersionHelper.java:120 | A character that needs no escape is written as itself. No escape begins with a quote. |
| Json.EscapeCharRead | src/main/java/org/sagebionetworks/bridge/exporter3/ParticipantVersionHelper.java:120 | Every escaped character reads back as that character. |
| Json.EscapeStringRead | src/main/java/org/sagebionetworks/bridge/exporter3/ParticipantVersionHelper.java:120 | An escaped string followed by the closing quote reads back as the string. |
| Json.ElementsRead | src/main/java/org/sagebionetworks/bridge/exporter3/ParticipantVersionHelper.java:120 | The comma-separated string literals read back as the list. |
| Json.WriteStringArrayRoundTrip | src/main/java/org/sagebionetworks/bridge/exporter3/ParticipantVersionHelper.java:120 | Reading back the array written for a list of strings gives that list. |
| Json.QuotePlain | src/main/java/org/sagebionetworks/bridge/exporter3/ParticipantVersionHelper.java:120 | A string with no character to escape is written between quotes unchanged. |
| DynamoTables.GetDefaultSynapseTableForStudy | src/main/java/org/sagebionetworks/bridge/workerPlatform/dynamodb/DynamoHelper.java:150-157 | The read is at key `studyId + "-default"`. It yields `null` when that item is absent, and otherwise the item's table ID. |
| DynamoTables.DefaultTableKeyInjective | src/main/java/org/sagebionetworks/bridge/workerPlatform/dynamodb/DynamoHelper.java:151 | Different studies have different default-table keys. |
| DynamoTables.DefaultTableAfterDelete | src/main/java/org/sagebionetworks/bridge/workerPlatform/dynamodb/DynamoHelper.java:150-165 | After the delete, the study's default table reads as `null`. Every other study's default table reads as before. |
| DynamoTables.DynamoHelper.DeleteDefaultSynapseTableForStudy | src/main/java/org/sagebionetworks/bridge/workerPlatform/dynamodb/DynamoHelper.java:163-165 | Exactly the key `studyId + "-default"` is removed from the meta table. |
| DynamoTables.ParseNotificationType | src/main/java/org/sagebionetworks/bridge/workerPlatform/dynamodb/DynamoHelper.java:209-215 | A missing or whitespace-only type is `UNKNOWN`. Any other type succeeds exactly when it names an enum constant, and is then that constant. |
| DynamoTables.IsWhitespace | src/main/java/org/sagebionetworks/bridge/workerPlatform/dynamodb/DynamoHelper.java:211 | `Character.isWhitespace`: the tab, line feed, vertical tab, form feed and carriage return, the four information separators `U+001C`-`U+001F`, and the Unicode space, line and paragraph separators except the non-breaking spaces `U+00A0`, `U+2007` and `U+202F`. The space separators are those of Unicode 6.3 and later, which Java uses from Java 9 on. |
| DynamoTables.StripLeadingWhitespace | src/main/java/org/sagebionetworks/bridge/workerPlatform/dynamodb/DynamoHelper.java:211 | Removing the leading whitespace leaves a suffix of the string: every removed character is whitespace and the first kept one is not. Nothing is left exactly when every character is whitespace. |
| DynamoTables.IsNotBlankStripped | src/main/java/org/sagebionetworks/bridge/workerPlatform/dynamodb/DynamoHelper.java:211 | `StringUtils.isNotBlank`: the string is not `null` and something is left once its leading whitespace is removed. |
| DynamoTables.GetLastNotificationTimeForUser | src/main/java/org/sagebionetworks/bridge/workerPlatform/dynamodb/DynamoHelper.java:196-221 | The result is `null` exactly when the user has no log item. Otherwise it is the user's item with the greatest time, carrying its message and parsed type. A failure means that item's type is not blank and not an enum name. |
| DynamoTables.LastNotificationAfterSet | src/main/java/org/sagebionetworks/bridge/workerPlatform/dynamodb/DynamoHelper.java:196-230 | A notification logged no earlier than the user's others is read back as the latest. |
| DynamoTables.LastNotificationAfterOlderSet | src/main/java/org/sagebionetworks/bridge/workerPlatform/dynamodb/DynamoHelper.java:196-230 | Logging an older notification leaves the latest read unchanged. |
| DynamoTables.DynamoHelper.SetLastNotificationTimeForUser | src/main/java/org/sagebionetworks/bridge/workerPlatform/dynamodb/DynamoHelper.java:224-230 | The log gains the item under (user ID, time), with the message and the type's name. Nothing else changes. |
| DynamoTables.GetSynapseSurveyTablesForStudy | src/main/java/org/sagebionetworks/bridge/workerPlatform/dynamodb/DynamoHelper.java:257-269 | The set is never `null`. It is empty when the study's item or its set attribute is missing, and otherwise it is the stored set. |
| DynamoTables.SurveyTablesDelete | src/main/java/org/sagebionetworks/bridge/workerPlatform/dynamodb/DynamoHelper.java:280-304 | After the delete, the study's survey tables are the old ones minus `tableId`. No item is added or removed, and other studies' items are unchanged. |
| DynamoTables.SurveyTablesDeleteAbsent | src/main/java/org/sagebionetworks/bridge/workerPlatform/dynamodb/DynamoHelper.java:281-291 | When the study's item is missing or does not list the ID, nothing changes. |
| DynamoTables.SurveyTablesDeleteIdempotent | src/main/java/org/sagebionetworks/bridge/workerPlatform/dynamodb/DynamoHelper.java:280-304 | A second identical delete changes nothing. |
| DynamoTables.SurveyTablesDeleteKeepsNoEmptySets | src/main/java/org/sagebionetworks/bridge/workerPlatform/dynamodb/DynamoHelper.java:294-298 | An emptied set is stored as an unset attribute, so no item ever holds an empty set. |
| DynamoTables.DynamoHelper.DeleteSynapseSurveyTableMapping | src/main/java/org/sagebionetworks/bridge/workerPlatform/dynamodb/DynamoHelper.java:280-304 | The read-modify-write leaves the table as the specification of the delete says. |
| DynamoTables.CanonicalSchema | src/main/java/org/sagebionetworks/bridge/workerPlatform/dynamodb/DynamoHelper.java:348-354 | The chosen schema is in the group and has the group's highest revision. It is the first such schema in iteration order, because only a strictly higher revision replaces it. |
| DynamoTables.GroupedByTableStep | src/main/java/org/sagebionetworks/bridge/workerPlatform/dynamodb/DynamoHelper.java:332-342 | Putting a schema into its table's group keeps the multimap grouping exactly the mapped schemas seen so far. A schema with no mapping is skipped. |
| DynamoTables.CanonicalOfGroups | src/main/java/org/sagebionetworks/bridge/workerPlatform/dynamodb/DynamoHelper.java:344-361 | One highest-revision schema per group yields the canonical map. |
| DynamoTables.DynamoHelper.GetSynapseTableIdsForStudy | src/main/java/org/sagebionetworks/bridge/workerPlatform/dynamodb/DynamoHelper.java:314-362 | The keys are exactly the table IDs that the study's mapped schemas point to. Each is paired with one of the schemas mapping to it, of the highest revision among them. |
| DynamoTables.CanonicalUnique | src/main/java/org/sagebionetworks/bridge/workerPlatform/dynamodb/DynamoHelper.java:344-359 | When the schemas sharing a table have distinct revisions, the canonical map is determined. |
| DynamoTables.CanonicalAfterMappingDelete | src/main/java/org/sagebionetworks/bridge/workerPlatform/dynamodb/DynamoHelper.java:368-370 | Once a schema key's mapping is deleted, that schema is the canonical schema of no table. |
| DynamoTables.DynamoHelper.DeleteSynapseTableIdMapping | src/main/java/org/sagebionetworks/bridge/workerPlatform/dynamodb/DynamoHelper.java:368-370 | Exactly the schema key is removed from the mapping table. |
| DynamoTables.DynamoHelper.WriteWorkerLog | src/main/java/org/sagebionetworks/bridge/workerPlatform/dynamodb/DynamoHelper.java:373-377 | The worker log gains the tag under (worker ID, finish time). Nothing else changes. |

## Left out

- DynamoDB and Synapse client plumbing (`Table`, `Index`, `Item`, `QuerySpec`, `UpdateItemSpec`, `DynamoQueryHelper`, `PartialRow`) is replaced by maps and records.
  - The index query plus the re-fetch of each schema (`DynamoHelper.java:317-326`) becomes reading the schema records in index order.
  - `UploadSchema.fromDdbItem` and `UploadSchemaKey.toString` are not part of this model. A schema is its study, its key string and its revision.
- The network fetch of column models in `getColumnNameToIdMap` (`SynapseHelper.getColumnModelsForTableWithRetry`) is not modelled. The column models are the method's input.
- Caching is not modelled: `@Cacheable` on `getColumnNameToIdMap` (forever) and on `getNotificationConfigForStudy` (5 minutes).
- `synchronized` on `deleteSynapseSurveyTableMapping` is not modelled: every operation is sequential.
- `getNotificationConfigForStudy` and `getStudy` are left out. They copy item attributes field by field and decide nothing.
- Logging (`LOG.warn`) is left out.
- Clock: `writeWorkerLog` takes the current time as a parameter instead of calling `DateTime.now()`.
- The constants of `NotificationType` are not part of this model. The parse takes the set of constant names as a parameter.
- Strings are sequences of Unicode scalar values, not UTF-16 code units.
  - The order, the 5-character language cut and `Character.isWhitespace` work on characters.
  - Text outside the Basic Multilingual Plane therefore sorts and truncates differently than in Java.
- Integers are unbounded. No value in this core is computed by arithmetic that could overflow: version numbers and millisecond times are only rendered and compared.
- Rendering of times and scopes: `createdOn`/`modifiedOn` are their epoch milliseconds, rendered by `String.valueOf`. `SharingScope.getValue()` is the scope's wire string, given as input.
- Unspecified iteration orders:
  - The app-demographics `HashMap` is a sequence of entries, so any one iteration order is covered.
  - In `GetSynapseTableIdsForStudy`, the order of the table IDs is a free choice.
  - Each group lists its schemas in the order they were added. That order is the model's own choice: `HashMultimap` keeps each key's values in a `HashSet`, which iterates in hash order and drops an equal schema added twice. Neither changes the highest revision, which is all the result is stated up to.
- A mapping item without a table ID attribute is not modelled: every schema-key mapping holds a table ID.
- `null` elements inside the participant version's collections are not modelled: data groups, languages, demographic values and external IDs are strings.
  - A `null` data group makes `Collections.sort` or the joiner throw (`ParticipantVersionHelper.java:94-95`).
  - A `null` language among the first 10 makes `language.length()` throw (`ParticipantVersionHelper.java:111`).
  - A `null` list of demographic values makes the loop throw (`ParticipantVersionHelper.java:161`), and a `null` value is put as a `null` cell (`ParticipantVersionHelper.java:167`).
  - A member study whose external ID is `null` serialises as `studyX=null` (`ParticipantVersionHelper.java:219-221`). The model writes that text only for a filter study that is not a member.
- A `null` notification type, which `getType().name()` cannot dereference, is not modelled: the type is always present. How the SDK stores a `null` message is not modelled either: the message is stored as given.
- `makeRowsForParticipantVersionDemographics` takes `appId`, `studyId` and a table ID that its row building does not use. Only the column map and the participant version are modelled.
- ParticipantVersionHelper.RowForCell: the per-column cell statement assumes that the table resolves every column name to a distinct ID. Without that, a `null` or shared column ID makes a later `put` replace an earlier one. `RowFor` models that replacement exactly, but no lemma describes it.
- ParticipantVersionHelper.ParticipantVersionRowCells: assumes, like `RowForCell`, that every column name resolves to a distinct ID.
- ParticipantVersionHelper.DemographicRowOfEntry: assumes, like `RowForCell`, that every column name resolves to a distinct ID.
- ParticipantVersionHelper.DemographicRowsContent: assumes, like `RowForCell`, that every column name resolves to a distinct ID.
- DynamoTables.IsWhitespace: follows the Unicode 6.3 and later category tables of Java 9 and later. On Java 8 (Unicode 6.2) `U+180E` MONGOLIAN VOWEL SEPARATOR is a space separator too, so `Character.isWhitespace` is true for it there; the model does not count it.
- DynamoTables.DynamoHelper.GetSynapseTableIdsForStudy: when several schemas of one table share the highest revision, the result says only that one of them is chosen. Which one depends on `HashMultimap` iteration order, which Java leaves unspecified. `CanonicalSchema` states the first-seen rule for a given order.
- DynamoTables.CanonicalUnique: holds only when the schemas sharing a table have distinct revisions, for the tie reason above.
