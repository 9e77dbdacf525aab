# Tagged behaviour — a Dafny model

`TaggedBehavior` is a Yii 2 behaviour. It keeps a free-text tag attribute of an
ActiveRecord (for example `"php, yii , dafny"`) in sync with two tables:

- `tag` holds one row per tag name and tenant, with a `frequency` counter.
- `entity_tag` holds join rows `(entity_id, entity_name, tag_id)`.

After a save, the behaviour parses the attribute's value from when the record
was loaded and its current value. It adds the names only the new value has, and
removes the names only the old value has. After a delete, every old name is
removed.

The model has four modules:

- `Wrappers`: `Option`, standing in for PHP `null`.
- `TagStrings`: `string2array` and `array2string`, and `array_values(array_diff(...))`.
  - `trim` is `Trim`.
  - The split on `/\s*,\s*/` with `PREG_SPLIT_NO_EMPTY` is `SplitFrom` followed by `DropEmpty`.
  - `implode(', ')` is `FormatTags`.
  - `array_diff` is `Difference`. It keeps order and repetitions, and drops every value the second list has.
- `TagRegistry`: the two tables and the two transactions.
  - The `tag` table is a map from id to `Tag`, plus the auto-increment counter that `getLastInsertID` reports.
  - `entity_tag` is a sequence of rows.
  - `addTags` is `AddEach`, the per-name loop, followed by `CommitAdd`, the bulk counter update and the batch insert.
  - `removeTags` is `CommitRemove`: the decrement, the cleanup of spent tags, and the join-row delete.
  - A transaction either commits all of its statements or none. A `fail` flag says which of the two happens. A failed `addTags` also sets the owner's attribute to null.
- `TaggedBehavior`: `updateFrequency`, `afterSave` and `afterDelete`.

These behaviours of the code are stated as lemmas:

- A name that is repeated and already has a tag gets two join rows but only one counter increment. The bulk update selects ids with `IN (...)`.
- A new name given twice is created with counter one. The second occurrence then finds it and raises the counter to two.
- When none of the names to remove has a tag in the tenant, `removeTags` drops the tag condition from its delete. It then unlinks the entity from every tag, including tags the entity still carries.
- The cleanup `DELETE ... WHERE frequency <= 0` has no tenant condition.
- A save that replaces a name without a tag in the tenant by another name leaves the record with no join row at all. `addTags` inserts the row for the new name. `removeTags` then selects no id for the old name, so its delete falls back to every row of the record. The new name still resolves to its tag.

## Model

| member | source | states |
|---|---|---|
| TagStrings.Trim | src/yadjet/behaviors/TaggedBehavior.php:58 | the result is a contiguous slice of the input with only whitespace before and after it, and has no whitespace at either end; it is empty exactly when the input is all whitespace; a string without edge whitespace is returned unchanged |
| TagStrings.SplitFrom | src/yadjet/behaviors/TaggedBehavior.php:58 | the split always yields at least one piece; no piece contains a comma; on a trimmed string no piece has whitespace at either end |
| TagStrings.SplitCutsAtLeftmostLongestSeparator | src/yadjet/behaviors/TaggedBehavior.php:58 | the first cut is the leftmost match of `\s*,\s*` and consumes the longest whitespace on both sides, as a PCRE split does |
| TagStrings.DropEmpty | src/yadjet/behaviors/TaggedBehavior.php:58 | `PREG_SPLIT_NO_EMPTY`: no piece of the result is empty, and a piece is in the result exactly when it is a non-empty piece of the split |
| TagStrings.DropEmptyCounts | src/yadjet/behaviors/TaggedBehavior.php:58 | every non-empty piece occurs in the result as often as in the split, and the empty piece not at all |
| TagStrings.DropEmptyOfConcat | src/yadjet/behaviors/TaggedBehavior.php:58 | the filter distributes over concatenation, so the kept pieces keep their order |
| TagStrings.DropEmptyKeepsNonEmpty | src/yadjet/behaviors/TaggedBehavior.php:58 | a split without empty pieces passes the filter unchanged, in order |
| TagStrings.DropEmptyNothingLeft | src/yadjet/behaviors/TaggedBehavior.php:58 | the filter leaves nothing exactly when every piece is empty |
| TagStrings.SplitAllEmptyIffBlank | src/yadjet/behaviors/TaggedBehavior.php:58 | from a non-space position, every piece of the split is empty exactly when the rest of the text is commas and whitespace |
| TagStrings.ParseTags | src/yadjet/behaviors/TaggedBehavior.php:56-59 | every parsed name is non-empty, comma-free and has no whitespace at either end |
| TagStrings.ParseTagsEmptyIffBlank | src/yadjet/behaviors/TaggedBehavior.php:56-59 | a string parses to no names exactly when it consists only of commas and whitespace |
| TagStrings.FormatTags | src/yadjet/behaviors/TaggedBehavior.php:61-64 | the joined string starts with the first name, and has no edge whitespace when the names are well formed |
| TagStrings.SplitFormatted | src/yadjet/behaviors/TaggedBehavior.php:56-64 | splitting the `, `-join of well-formed names, after any prefix, gives back exactly those names |
| TagStrings.ParseFormatRoundTrip | src/yadjet/behaviors/TaggedBehavior.php:56-64 | `string2array(array2string(names)) == names` for every list of well-formed names, repetitions and order included |
| TagStrings.ParseFormatParse | src/yadjet/behaviors/TaggedBehavior.php:56-64 | parsing, joining and parsing again gives the first parse |
| TagStrings.Difference | src/yadjet/behaviors/TaggedBehavior.php:70-71 | a value is in the difference exactly when the first list has it and the second lacks it |
| TagStrings.DifferenceCounts | src/yadjet/behaviors/TaggedBehavior.php:70-71 | a value the second list lacks occurs in the difference as often as in the first list, and a value it has does not occur at all |
| TagStrings.DifferenceOfConcat | src/yadjet/behaviors/TaggedBehavior.php:70-71 | the difference distributes over concatenation, so the kept values keep their relative order |
| TagStrings.DifferenceOfNothing | src/yadjet/behaviors/TaggedBehavior.php:70-71 | taking away an empty list returns the list itself |
| TagStrings.DifferenceOfCovered | src/yadjet/behaviors/TaggedBehavior.php:70-71 | taking away a list that has every value leaves nothing |
| TagRegistry.NewTag | src/yadjet/behaviors/TaggedBehavior.php:98-107 | the inserted tag has the name, the tenant, counter one, the slug of the name as alias, and the acting user and time as creator and updater |
| TagRegistry.InsertAddsOneRow | src/yadjet/behaviors/TaggedBehavior.php:98-109 | the insert uses the counter's id, which no tag had; it adds exactly that tag, keeps every other tag and every join row, and advances the counter |
| TagRegistry.FindFrom | src/yadjet/behaviors/TaggedBehavior.php:92 | the scan returns the least id in range whose tag has the name and tenant, or none when no such tag exists |
| TagRegistry.Lookup | src/yadjet/behaviors/TaggedBehavior.php:92 | the lookup by name and tenant answers a tag with that name and tenant, the one with the least id; it answers none exactly when no tag matches |
| TagRegistry.AdjustFrequency | src/yadjet/behaviors/TaggedBehavior.php:114 | the bulk update keeps every id, changes only the counters, and changes exactly the listed ids, each by the delta once |
| TagRegistry.LookupAfterInsert | src/yadjet/behaviors/TaggedBehavior.php:92-109 | after an insert, a name that resolved still resolves to the same id, and the inserted name resolves to the new id if it did not resolve before |
| TagRegistry.ResolutionIgnoresFrequency | src/yadjet/behaviors/TaggedBehavior.php:113-115 | changing counters never changes which tag a name resolves to |
| TagRegistry.AddEach | src/yadjet/behaviors/TaggedBehavior.php:91-112 | the loop leaves `entity_tag` alone, never lowers the id counter, keeps every existing tag, and queues one row per name |
| TagRegistry.AddEachSpec | src/yadjet/behaviors/TaggedBehavior.php:91-112 | after the loop, names that resolved still resolve to the same tag, and every name resolves and its queued row links the entity to that tag. Every new tag was created for a name that did not resolve. The queued ids are the existing tags some name resolved to, plus new tags whose name occurs twice or more |
| TagRegistry.CommitAdd | src/yadjet/behaviors/TaggedBehavior.php:113-118 | the batch insert appends the queued rows to `entity_tag`; every tag is kept, and its counter rises by one exactly when its id was queued, however often |
| TagRegistry.AddTags | src/yadjet/behaviors/TaggedBehavior.php:79-124 | on failure both tables are unchanged and the attribute becomes null. On success the join rows are the old ones followed by one row per name linking the entity to the tag the name resolves to, and resolved names keep their tag. An existing tag gains one exactly when some name resolved to it. Every new tag is a fresh row for a name that did not resolve, with counter 2 when the name was given more than once and 1 otherwise |
| TagRegistry.AddOneNewName | src/yadjet/behaviors/TaggedBehavior.php:96-117 | adding one unknown name inserts exactly one tag under the next id with counter one, and exactly one join row for it |
| TagRegistry.RepeatedNewNameCountsTwice | src/yadjet/behaviors/TaggedBehavior.php:92-117 | an unknown name given twice is inserted once under the next id with counter two, and gets two join rows |
| TagRegistry.RepeatedKnownNameBumpsOnce | src/yadjet/behaviors/TaggedBehavior.php:92-117 | a known name given twice adds two identical join rows but raises its counter by one only |
| TagRegistry.AddTagsKeepsNamesUnique | src/yadjet/behaviors/TaggedBehavior.php:91-111 | if every name and tenant had at most one tag before `addTags`, the same holds after it |
| TagRegistry.AddTagsKeepsPositive | src/yadjet/behaviors/TaggedBehavior.php:98-115 | if every counter was at least one before `addTags`, every counter is at least one after it |
| TagRegistry.KeepRows | src/yadjet/behaviors/TaggedBehavior.php:159 | a row survives the delete exactly when it was there and is not doomed; a surviving row keeps every one of its copies, and a doomed row loses all of them |
| TagRegistry.RowsOfOthers | src/yadjet/behaviors/TaggedBehavior.php:155 | the rows of other entities are exactly the rows the entity does not own |
| TagRegistry.DeleteOwnRowsKeepsOthers | src/yadjet/behaviors/TaggedBehavior.php:155-159 | a delete conditioned on the entity's id and name never touches another entity's rows |
| TagRegistry.ResolvedIdsAreSelected | src/yadjet/behaviors/TaggedBehavior.php:92-148 | the tag a name resolves to in the tenant is among the ids the removal selects for that name |
| TagRegistry.SelectedIdsAreResolved | src/yadjet/behaviors/TaggedBehavior.php:141-148 | when names are unique, every selected id is the tag that one of the names resolves to in the tenant |
| TagRegistry.Doomed | src/yadjet/behaviors/TaggedBehavior.php:155-158 | only rows of the entity are deleted; every row of the entity that links a selected tag is, and with no selected tag every row of the entity is; and, when some tag is selected, no other row of the entity is |
| TagRegistry.CommitRemove | src/yadjet/behaviors/TaggedBehavior.php:141-159 | the removal keeps the id counter, creates no tag and adds no row, and every tag it keeps has a positive counter |
| TagRegistry.CommitRemoveTags | src/yadjet/behaviors/TaggedBehavior.php:141-153 | a tag survives exactly when its counter, less one if it was selected, stays positive, and it then has that counter |
| TagRegistry.CommitRemoveLinks | src/yadjet/behaviors/TaggedBehavior.php:155-159 | other entities' rows are untouched, and an own row loses every copy exactly when nothing was selected or its tag was selected; every other row keeps its copies |
| TagRegistry.RemoveTags | src/yadjet/behaviors/TaggedBehavior.php:131-164 | with no names, or on failure, nothing changes. Otherwise every selected counter drops by one and every tag at or below zero is deleted, so the remaining counters are positive. Other entities' rows are untouched. An own row is deleted, every copy of it, exactly when nothing was selected or its tag was selected; every other row keeps its number of copies. The attribute is never changed |
| TagRegistry.RemoveTagsOnlyShrinks | src/yadjet/behaviors/TaggedBehavior.php:131-164 | `removeTags` never creates a tag, raises a counter or adds a row; when it commits, no row of the entity links a selected tag |
| TagRegistry.RemoveUnknownNamesUnlinksEverything | src/yadjet/behaviors/TaggedBehavior.php:149-159 | when no name has a tag in the tenant, counters are unchanged and every row of the entity is deleted, while every other row stays |
| TagRegistry.CleanupIgnoresTenant | src/yadjet/behaviors/TaggedBehavior.php:153 | a tag of another tenant whose counter is at or below zero is deleted as well |
| TagRegistry.RemoveTagsKeepsOtherNames | src/yadjet/behaviors/TaggedBehavior.php:141-153 | with positive counters, a name not among the names to remove still resolves after `removeTags` |
| TagRegistry.RemoveTagsKeepsPositive | src/yadjet/behaviors/TaggedBehavior.php:150-153 | if every counter was at least one before `removeTags`, the same holds after it |
| TagRegistry.RemoveTagsKeepsNamesUnique | src/yadjet/behaviors/TaggedBehavior.php:150-153 | `removeTags` never makes two tags share a name and tenant |
| TaggedBehavior.NullNamesNothing | src/yadjet/behaviors/TaggedBehavior.php:56-69 | a null attribute, which `trim` reads as the empty string, names no tags; a string attribute names what its text parses to |
| TaggedBehavior.TagChanges | src/yadjet/behaviors/TaggedBehavior.php:66-71 | a name is added exactly when only the new string has it, and removed exactly when only the old one has it. No name is both added and removed. Each keeps its count from its string, and all are well formed |
| TaggedBehavior.UpdateScenario | src/yadjet/behaviors/TaggedBehavior.php:66-71 | going from `a, b` to `b, c` adds `c` and removes `a`, for any three distinct well-formed names |
| TaggedBehavior.SameNamesChangeNothing | src/yadjet/behaviors/TaggedBehavior.php:66-72 | when both strings name the same tags, in any order, spacing or repetition, no table changes |
| TaggedBehavior.UpdateFrequency | src/yadjet/behaviors/TaggedBehavior.php:66-72 | the attribute becomes null exactly when `addTags` fails; when both transactions fail nothing changes |
| TaggedBehavior.UpdateFrequencyKeepsPositive | src/yadjet/behaviors/TaggedBehavior.php:66-72 | a save or a delete keeps every counter at least one |
| TaggedBehavior.AddNothingChangesNothing | src/yadjet/behaviors/TaggedBehavior.php:113-118 | `addTags` with no names changes no table |
| TaggedBehavior.AfterSave | src/yadjet/behaviors/TaggedBehavior.php:44-48 | the save compares the snapshot with the current attribute; the attribute becomes null exactly when `addTags` fails, and when both transactions fail nothing changes. The save is `AddTags` on the added names followed by `RemoveTags` on the removed names, so its effect on the tables is those two contracts composed; `AfterSaveResolvesAddedNames`, `UpdateFrequencyKeepsPositive` and `ReplacingUnknownNameUnlinksRecord` state consequences of that composition |
| TaggedBehavior.AfterDelete | src/yadjet/behaviors/TaggedBehavior.php:50-54 | as for a save, with the empty string as new value. What the delete does to the tables is stated by `DeleteRemovesEverySnapshotName`, `AfterDeleteIsRemoval` and `AfterDeleteOnlyShrinks` |
| TaggedBehavior.ReplaceOneName | src/yadjet/behaviors/TaggedBehavior.php:66-71 | replacing one well-formed name by another adds the new name and removes the old one |
| TaggedBehavior.ReplacingUnknownNameUnlinksRecord | src/yadjet/behaviors/TaggedBehavior.php:44-48 | a save from a name without a tag in the tenant to another name, with both transactions committing, leaves the new name resolving but deletes every join row of the record, including the one `addTags` has just inserted; other records' rows stay |
| TaggedBehavior.DeleteRemovesEverySnapshotName | src/yadjet/behaviors/TaggedBehavior.php:50-54 | on delete nothing is added and every name of the snapshot is removed, in order and with repetitions |
| TaggedBehavior.AfterDeleteIsRemoval | src/yadjet/behaviors/TaggedBehavior.php:50-54 | a delete is exactly `removeTags` with every name of the snapshot |
| TaggedBehavior.AfterDeleteOnlyShrinks | src/yadjet/behaviors/TaggedBehavior.php:50-54 | a delete never creates a tag, raises a counter or adds a row; when the removal commits, no row of the record links a tag of the tenant named in the snapshot |
| TaggedBehavior.AfterSaveResolvesAddedNames | src/yadjet/behaviors/TaggedBehavior.php:44-48 | with positive counters, when `addTags` commits, every added name resolves to a tag after the whole save, whatever `removeTags` does |

## Left out

- Event wiring: `events()` and `afterFind` are not modelled. The snapshot taken in `afterFind` is a parameter of `AfterSave` and `AfterDelete`. The snapshot is not refreshed after a save, and neither is the model's.
- Ambient state as parameters: the tenant (`Yad::getTenantId`), the acting user, the clock (`time()`), the entity name (`className2Id`) and `Inflector::slug` are all parameters. The slug is an arbitrary function.
- Transaction failures: exceptions from the database are not modelled statement by statement. Each of the two transactions takes one flag that says whether it rolls back.
- TagRegistry.Lookup: when several tags share a name and tenant, `queryScalar` returns whichever row the database yields first. The model picks the least id. When names are unique, which `AddTagsKeepsNamesUnique` and `RemoveTagsKeepsNamesUnique` preserve, there is no choice to make.
- Truthiness of ids: the model treats every id as truthy, so `if ($tagId)` is modelled as "found". This holds because auto-increment ids start at one, and the model's ids are all positive.
- Truthiness of the insert result: `if ($newTag)` is treated as always true. A successful single-row insert returns 1.
- SQL string comparison: the model compares names with exact equality. Collation, case folding and trailing-space rules of the database are not modelled.
- Whitespace: both `trim` and `\s` use one set: space, tab, line feed, carriage return and vertical tab. `trim` also strips NUL, and PCRE's `\s` also matches form feed. Those two characters count as ordinary characters here.
- Multibyte text: strings are sequences of characters, and encodings are not modelled.
- Concurrency: two requests racing on "not found, insert" are not modelled. Each call is one atomic step.
- Audit columns: `created_at` and `updated_at` are integers, and `created_by` and `updated_by` are optional user ids. Their values are copied from the context and not checked further.
