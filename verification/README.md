# Course upload helper: category resolution, shortnames, enrolment and role columns

This project models `tool_uploadcourse_helper`, the static helper class of
Moodle's bulk course upload tool, and proves properties of the model in Dafny.
For each row of the uploaded CSV file the helper does four things:

- It finds the course's category: by id, then by idnumber, then by a path such
  as `Science / Physics`. The path walk creates missing categories in commit
  mode. In preview mode it only simulates creating them, with "virtual" ids
  above 9000000000 kept in a virtual category table. Path and idnumber answers
  are cached, and `-1` is stored for "looked up and not found".
- It builds a shortname from a template such as `%+f-%~i`.
- It makes an idnumber or a shortname unique by bumping the number at its end.
- It reads the `enrolment_<n>[_<option>]` and `role_<shortname>` columns.

The files:

- `php_text.dfy` (`PhpText`): the PHP string semantics the helper relies on:
  `empty()` on strings, `(int)`, decimal text, `trim`, `join`, `explode`, and
  PCRE's `$`, which also matches before one final newline.
- `category_path.dfy` (`CategoryPath`): `resolve_category_by_path` and
  `reset_virtual_id_counter` as a pure state machine. The state holds the
  counter, the virtual table, both caches, the category table, the status log
  and the two course flags. Its lemmas cover:
  - the path cache;
  - minting and reusing virtual records in preview;
  - creation in commit mode;
  - the failure cases;
  - the shape of the answer.
- `category_lookup.dfy` (`CategoryLookup`): `resolve_category_by_idnumber` and
  `resolve_category` with its id, then idnumber, then path precedence.
- `category_scenarios.dfy` (`CategoryScenarios`): concrete runs on small
  category tables.
- `resolver.dfy` (`Resolver`): the helper's static state as a class. Its
  methods update the fields step by step, the path walk as a loop. Each method
  is proved to leave exactly the state, and give exactly the answer, that the
  specification functions above describe.
- `increment.dfy` (`Increment`): `increment_idnumber` and `increment_shortname`
  as loops. They are proved to terminate and to return the first free name of
  the increment sequence.
- `shortname_template.dfy` (`ShortnameTemplate`): `generate_shortname` and its
  callback. The template is read as placeholder and literal tokens.
- `field_data.dfy` (`FieldData`): `get_enrolment_data` and `get_role_names`.
  Each loop is proved against a fold. A PHP array is modelled as an ordered
  list of key/value pairs, where overwriting keeps a key's place.

Each of these is an explicit parameter of the model rather than a call:

| Source | Model parameter |
|---|---|
| Database tables | a sequence of category rows, or a set of taken names |
| `get_enrolment_plugins()` | a set of plugin names |
| `get_role_ids()` | a shortname to id map |
| `core_text` case functions and `clean_param` | the fields of `TextOps` |
| Whether `coursecat::create` fails | the set `refused` of (name, parent) pairs |

## Model

| member | source | states |
|---|---|---|
| `Resolver.Resolver.constructor` | admin/tool/uploadcourse/classes/helper.php:40-47 | A run starts with the counter at 0, an empty virtual table, empty caches, the given category table, and no course set. |
| `Resolver.Resolver.SetCourse` | admin/tool/uploadcourse/classes/helper.php:54-56 | set_course_obj: the two flags now come from the given course and its status log starts empty. Nothing else changes and the state invariant is kept. |
| `Resolver.Resolver.ResetVirtualIdCounter` | admin/tool/uploadcourse/classes/helper.php:601-603 | The counter becomes 0 and the virtual table is kept. The state invariant is kept. |
| `Resolver.Resolver.Shift` | admin/tool/uploadcourse/classes/helper.php:487-574 | One loop iteration changes the fields exactly as `CategoryPath.Step` says. The break and throw flags say which way the loop leaves. The path cache is not touched. If the state invariant held, and in commit mode `$id_last` was the root or a stored id, the invariant still holds. |
| `Resolver.Resolver.ResolveByPath` | admin/tool/uploadcourse/classes/helper.php:471-594 | The loop over the segments leaves exactly the state, and returns exactly the answer, given by `CategoryPath.ResolvePath`. The state invariant is kept. |
| `Resolver.Resolver.ResolveByIdnumber` | admin/tool/uploadcourse/classes/helper.php:441-463 | The new state and answer are exactly `CategoryLookup.IdnumberLookup`. The state invariant is kept. |
| `Resolver.Resolver.ResolveCategory` | admin/tool/uploadcourse/classes/helper.php:397-433 | The new state and answer are exactly `CategoryLookup.ResolveCategorySpec`. The state invariant is kept. |
| `CategoryPath.MatchesExact` | admin/tool/uploadcourse/classes/helper.php:486-493 | The per-segment query returns exactly the rows with that name under that parent. |
| `CategoryPath.StopsAtEmptySegment` | admin/tool/uploadcourse/classes/helper.php:487 | The `while ($name = array_shift($path))` loop ends at the first segment that is "" or "0". Nothing after that segment is read. |
| `CategoryPath.WalkSetsId` | admin/tool/uploadcourse/classes/helper.php:487-574 | A walk that processes at least one segment ends with `$id` set. |
| `CategoryPath.StepPreview` | admin/tool/uploadcourse/classes/helper.php:493-546 | In preview with creation allowed, one step mints nothing, or mints exactly one record, and the store and the caches are untouched. A single database match is written to the table under its id and the previous level, and becomes `$id_last`. With no match, a partial path already in the table is reused: its id becomes `$id_last` and nothing changes. Otherwise a record is minted: the next virtual id, the segment's name, the previous `$id_last` as parent, a path new to the table. That record is what the table now holds for the partial path, and one 'will be created' event is logged. Whenever the walk goes on, the table holds the partial path under the new `$id_last`. |
| `CategoryPath.WalkPreview` | admin/tool/uploadcourse/classes/helper.php:514-546 | A preview walk never throws and never writes the store. The records it mints take consecutive ids after the counter and have paths new to the table. |
| `CategoryPath.WalkPreviewLevels` | admin/tool/uploadcourse/classes/helper.php:487-546 | Level by level, a preview walk that does not stop on an ambiguity reads every segment before the first "" or "0". For each level the table then holds either the entry it held before, unchanged, or a record named after the segment under the level above. The minted records are exactly the levels that were new and virtual, in order. |
| `CategoryPath.PreviewAnswer` | admin/tool/uploadcourse/classes/helper.php:514-586 | A preview answer other than false is about the path's levels: each level is reused unchanged or built under the level above, and the deepest level's id is cached. An `['id' => id]` answer is that id. Every answered record is what the table holds for its path, named after its segment, under the level above. |
| `CategoryPath.ResolveReusesTable` | admin/tool/uploadcourse/classes/helper.php:519-527 | A preview path whose every level is already in the virtual table, and no segment of which matches a category under the level above, is answered from the table alone: `['id' => id]` of the deepest level, which is cached. Nothing is minted, logged or written elsewhere. |
| `CategoryPath.WalkPreviewEvents` | admin/tool/uploadcourse/classes/helper.php:542 | A preview walk logs one 'will be created' event per minted record, in walk order. |
| `CategoryPath.WalkPreviewDistinct` | admin/tool/uploadcourse/classes/helper.php:519-543 | The records minted on one walk have pairwise different paths, and all of them are in the table afterwards. |
| `CategoryPath.StepCommit` | admin/tool/uploadcourse/classes/helper.php:493-572 | One commit step does one of four things: find a row, create one row under `$id_last` with a 'categorycreated' event, log the denial, or throw. It keeps the store well formed. |
| `CategoryPath.WalkCommit` | admin/tool/uploadcourse/classes/helper.php:547-557 | A commit walk only appends to the store, with auto-increment ids. It never touches the counter or the caches. It ends with `$id` unset, -1 or a stored id. |
| `CategoryPath.WalkCommitEvents` | admin/tool/uploadcourse/classes/helper.php:547-571 | With creation allowed, there is one 'categorycreated' event per created row. Without it, the store is untouched and at most one 'could not resolve' error is logged. |
| `CategoryPath.StepKeepsValid` | admin/tool/uploadcourse/classes/helper.php:487-574 | One step keeps the state invariant. When the walk goes on, `$id` is positive. |
| `CategoryPath.WalkKeepsValid` | admin/tool/uploadcourse/classes/helper.php:487-574 | A walk keeps the state invariant, and `$id` ends unset, -1 or positive. |
| `CategoryPath.WalkFrame` | admin/tool/uploadcourse/classes/helper.php:487-574 | The walk itself never changes the caches or the two flags. |
| `CategoryPath.ResolveCached` | admin/tool/uploadcourse/classes/helper.php:479-586 | A cache hit changes nothing. A cached -1 answers false, and any other cached id answers `['id' => id]`. |
| `CategoryPath.ResolveStoresId` | admin/tool/uploadcourse/classes/helper.php:575-586 | After a miss, the path is cached exactly when its first segment is not empty. Only that entry changes, and false or `['id' => id]` agree with the cached value, which is the walk's final `$id`. |
| `CategoryPath.ResolveKeepsValid` | admin/tool/uploadcourse/classes/helper.php:471-594 | resolve_category_by_path keeps the state invariant. |
| `CategoryPath.ResolveTwice` | admin/tool/uploadcourse/classes/helper.php:478-586 | A second call with the same path is a pure cache hit, even if creations would now fail. False stays false, and an id stays that id. An answer of new records comes back as a positive `['id' => id]`. |
| `CategoryPath.ResolvePreview` | admin/tool/uploadcourse/classes/helper.php:471-586 | A preview call with creation allowed never writes the store. The records it answers are freshly minted with consecutive ids, and the counter advances by their number. An answer other than false also says what `CategoryPath.PreviewAnswer` says: the cached and answered id is the deepest level's, and each answered record sits at its level, named after its segment, under the level above. |
| `CategoryPath.ResolvePreviewEvents` | admin/tool/uploadcourse/classes/helper.php:542 | The status log gains exactly the 'will be created' events of the answered records. |
| `CategoryPath.ResolvePreviewDistinct` | admin/tool/uploadcourse/classes/helper.php:541-543 | The answered records have distinct paths, so keying them by path loses none. |
| `CategoryPath.ResolveCommit` | admin/tool/uploadcourse/classes/helper.php:471-586 | In commit mode the store only grows, the counter is untouched, and an `['id' => id]` answer names a stored category. That category is the one the path names: a chain of stored categories, the first under the root and each under the one before, spells the segments before the first "" or "0" and ends in that id. |
| `CategoryPath.StepCommitNames` | admin/tool/uploadcourse/classes/helper.php:487-557 | One commit step that goes on extends the chain of categories spelling the segments read so far. One that stops leaves `$id` at -1. |
| `CategoryPath.WalkCommitNames` | admin/tool/uploadcourse/classes/helper.php:487-574 | A commit walk that ends with a real id ends at the last category of a chain that spells the segments it read, from the root down. |
| `CategoryPath.WalkReads` | admin/tool/uploadcourse/classes/helper.php:487-489 | A walk that ends without a stop has read exactly the segments before the first "" or "0". |
| `CategoryPath.WalkSplit` | admin/tool/uploadcourse/classes/helper.php:487-574 | A walk that gets through a prefix of the path without stopping goes on exactly from where that prefix left it. |
| `CategoryPath.ResolveFailsAt` | admin/tool/uploadcourse/classes/helper.php:493-581 | In either mode, a walk that reaches a segment with two categories of that name under the previous level, or none while creation is not allowed, stops there. The answer is false, -1 is cached for the path, nothing after that segment is looked at, and only the denial logs the 'could not resolve' error. |
| `CategoryPath.ResolveCommitEvents` | admin/tool/uploadcourse/classes/helper.php:553 | In commit mode there is one 'categorycreated' event per created category. Without permission there is none, and at most one error. |
| `CategoryPath.ResetRestartsMinting` | admin/tool/uploadcourse/classes/helper.php:601-603 | After a reset the table is kept, and the next minted record takes the first virtual id again. |
| `CategoryScenarios.ScienceAndPhysicsCommit` | admin/tool/uploadcourse/classes/helper.php:547-557 | Commit on an empty table creates "Science" and "Physics" under it, logs two 'categorycreated' events, and caches and answers Physics's id. |
| `CategoryScenarios.ScienceAndPhysicsPreview` | admin/tool/uploadcourse/classes/helper.php:514-546 | Preview of the same path mints two linked virtual records. The table holds exactly them, and both are answered. |
| `CategoryScenarios.VirtualReuseFirstRow` | admin/tool/uploadcourse/classes/helper.php:519-546 | Preview row "A / B" mints A and B. |
| `CategoryScenarios.VirtualReuseSecondRow` | admin/tool/uploadcourse/classes/helper.php:519-546 | Preview row "A / B / C" reuses A and B from the table and mints only C, under B's id. |
| `CategoryScenarios.VirtualReuseThirdRow` | admin/tool/uploadcourse/classes/helper.php:519-546 | Preview row "A / B / D" mints only D, with an id different from C's. The table then holds all four. |
| `CategoryScenarios.PartialCreationThrows` | admin/tool/uploadcourse/classes/helper.php:548-552 | When creating the third level fails, the call throws, the first two levels stay created, and nothing is cached. |
| `CategoryScenarios.PartialCreationKept` | admin/tool/uploadcourse/classes/helper.php:493-507 | A later "A / B" finds both categories and creates nothing. |
| `CategoryScenarios.AmbiguityIsFalse` | admin/tool/uploadcourse/classes/helper.php:495-499 | Two same-named categories under one parent stop the walk. The call caches -1 and answers false, creating and logging nothing, in every mode. |
| `CategoryLookup.IdnumberLookup` | admin/tool/uploadcourse/classes/helper.php:441-463 | resolve_category_by_idnumber changes only the idnumber cache. Afterwards the idnumber is cached, no other entry has changed, and the answer is false exactly when the cached value is -1. |
| `CategoryLookup.ResolveCategorySpec` | admin/tool/uploadcourse/classes/helper.php:397-433 | resolve_category adds at most the by-id and by-idnumber errors, and removes none. Without a path it never throws and changes at most the idnumber cache. |
| `CategoryLookup.FirstByIdnumberFinds` | admin/tool/uploadcourse/classes/helper.php:447 | The query finds nothing exactly when no row has the idnumber. Otherwise it finds the first row that has it. |
| `CategoryLookup.IdnumberMiss` | admin/tool/uploadcourse/classes/helper.php:445-462 | On a miss the answer is an existing category with that idnumber, or false when there is none. The cache stores that id, or -1, and nothing else changes. |
| `CategoryLookup.IdnumberPositive` | admin/tool/uploadcourse/classes/helper.php:441-463 | A found idnumber gives a positive id, so `empty()` is false on it. |
| `CategoryLookup.IdnumberCachedForever` | admin/tool/uploadcourse/classes/helper.php:443-455 | A cached answer is repeated even if the category table changed in between. |
| `CategoryLookup.FindById` | admin/tool/uploadcourse/classes/helper.php:401 | The id lookup returns a stored category with that id, or nothing when none has it. |
| `CategoryLookup.PathCatId` | admin/tool/uploadcourse/classes/helper.php:421-430 | The path answer as the code's comment describes it: false gives false, `['id' => id]` gives id, and new records give the last record's id. |
| `CategoryLookup.IdWins` | admin/tool/uploadcourse/classes/helper.php:400-404 | An existing category id wins. The state is untouched and no error is added. |
| `CategoryLookup.IdnumberWinsOverPath` | admin/tool/uploadcourse/classes/helper.php:405-416 | A missing id adds its error. A found idnumber then wins over the path. |
| `CategoryLookup.PathAsLastResort` | admin/tool/uploadcourse/classes/helper.php:400-431 | When the id and the idnumber are each absent or not found, the path decides. Each one not found adds its error, and the walk starts from the state the idnumber lookup left. The call throws exactly when the walk throws. False gives false, and so does an empty array of records, from a path whose first segment is "" or "0", because line 421 compares loosely. `['id' => id]` gives id, and new records give the last record's id. |
| `CategoryLookup.PathCatIdAgrees` | admin/tool/uploadcourse/classes/helper.php:421-430 | Unless a new record's flattened path is literally `id`, the branch as written and the corrected branch give the same answer. |
| `CategoryLookup.IdnumberKeepsValid` | admin/tool/uploadcourse/classes/helper.php:441-463 | resolve_category_by_idnumber keeps the state invariant: only -1 or a positive stored id is cached. |
| `CategoryLookup.ResolveCategoryKeepsValid` | admin/tool/uploadcourse/classes/helper.php:397-433 | resolve_category keeps the state invariant. |
| `CategoryLookup.CatIdIsNeverAnObject` | admin/tool/uploadcourse/classes/helper.php:397-433 | With the corrected path branch, the answer is never a record object. |
| `CategoryLookup.IdKeyCounterexample` | admin/tool/uploadcourse/classes/helper.php:423-424 | On the path "id" in preview, the branch as written answers the record object, while the corrected branch answers the minted id. |
| `Increment.IncrementIdnumber` | admin/tool/uploadcourse/classes/helper.php:349-361 | The loop terminates. Its answer is not taken, and it is the first name of the increment chain from the idnumber that is free. An unused idnumber comes back unchanged. |
| `Increment.IncrementShortname` | admin/tool/uploadcourse/classes/helper.php:371-383 | The do-while loop terminates. Its answer is the first free name of the chain that starts one step after the shortname. |
| `Increment.Increment` | admin/tool/uploadcourse/classes/helper.php:352-356 | One step of either loop: whatever the name, the result ends in a decimal digit. |
| `Increment.ChainSteps` | admin/tool/uploadcourse/classes/helper.php:351-358 | Read index by index, the chain starts at the first name and each name is the step of the one before it. |
| `Increment.StepAnyRun` | admin/tool/uploadcourse/classes/helper.php:352-356 | A name whose last line is a plain prefix followed by any digit run, leading zeros included, steps to that prefix followed by the run's value plus one. Earlier lines and one final newline are dropped. |
| `Increment.NormalStep` | admin/tool/uploadcourse/classes/helper.php:356 | A name that ends in the decimal text of m steps to the same prefix followed by m + 1. |
| `Increment.Normalizes` | admin/tool/uploadcourse/classes/helper.php:353-356 | A name that ends in digits reaches that form in one step. |
| `Increment.AppendGivesNumber` | admin/tool/uploadcourse/classes/helper.php:353-354 | A name without trailing digits gets "_2" appended, and then ends in a number. |
| `Increment.Advance` | admin/tool/uploadcourse/classes/helper.php:351-359 | Each step of either loop decreases the termination measure while the name is taken. |
| `PhpText.IntvalDec` | admin/tool/uploadcourse/classes/helper.php:356 | Casting the decimal text of n with `(int)` gives n back. |
| `PhpText.JoinExplode` | admin/tool/uploadcourse/classes/helper.php:418 | Joining the parts of `explode(' / ', s)` with the same separator gives s back. |
| `PhpText.TrimResult` | admin/tool/uploadcourse/classes/helper.php:489 | `trim()` leaves no trimmable character at either end. |
| `ShortnameTemplate.GenerateShortname` | admin/tool/uploadcourse/classes/helper.php:66-90 | An empty template gives null. A template without `%` comes back unchanged. Any answer is non-empty. |
| `ShortnameTemplate.MatchAt` | admin/tool/uploadcourse/classes/helper.php:79 | A placeholder is matched only at a `%` that does not follow a `%`, and the match fits in the template. |
| `ShortnameTemplate.Replacement` | admin/tool/uploadcourse/classes/helper.php:100-129 | The callback's answer is a prefix of the field the placeholder names, cased by its modifier. |
| `ShortnameTemplate.MatchAtComplete` | admin/tool/uploadcourse/classes/helper.php:79 | Wherever the pattern occurs (a `%` not after a `%`, an optional modifier, digits, then `f` or `i`), the match there returns that placeholder. |
| `ShortnameTemplate.MatchAtExact` | admin/tool/uploadcourse/classes/helper.php:79 | The pattern occurs at a position with a given placeholder exactly when the match there returns it. |
| `ShortnameTemplate.ScanReaches` | admin/tool/uploadcourse/classes/helper.php:79 | A scan started before a `%` reaches that `%`. The tokens before it spell the text in between, and the scan resumes there. |
| `ShortnameTemplate.PlaceholderScanned` | admin/tool/uploadcourse/classes/helper.php:79 | Every occurrence of the pattern in the template is a token of the scan. The tokens before it spell the text before it, and the scan continues right after it. |
| `ShortnameTemplate.PlaceholderReplaced` | admin/tool/uploadcourse/classes/helper.php:79-129 | Every occurrence of the pattern is replaced by the callback's answer for it. That answer sits between the rendering of the text before it and the rendering of the rest of the template. |
| `ShortnameTemplate.MatchAtSource` | admin/tool/uploadcourse/classes/helper.php:79 | A placeholder match covers exactly its source text, and its digits are digits. |
| `ShortnameTemplate.TokensSource` | admin/tool/uploadcourse/classes/helper.php:79 | The scan's tokens spell the template exactly, so no text is lost or invented. |
| `ShortnameTemplate.ExpandWithoutPercent` | admin/tool/uploadcourse/classes/helper.php:79 | A template without `%` expands to itself. |
| `ShortnameTemplate.ReplacementTruncates` | admin/tool/uploadcourse/classes/helper.php:100-129 | The callback gives a prefix of the cased field. It gives the whole field when there are no digits or the last digit is 0, and otherwise cuts to that last digit. |
| `ShortnameTemplate.EscapedPercentIsLiteral` | admin/tool/uploadcourse/classes/helper.php:79 | `%%f` stays as it is. |
| `ShortnameTemplate.LastDigitTruncates` | admin/tool/uploadcourse/classes/helper.php:124-126 | `%12f` on "Chemistry" gives "Ch", because only the last digit is captured. |
| `ShortnameTemplate.TwoPlaceholders` | admin/tool/uploadcourse/classes/helper.php:100-122 | With an empty idnumber, `%+f-%~i` gives the upper-cased full name, "-", and the title-cased empty idnumber. |
| `FieldData.GetEnrolmentData` | admin/tool/uploadcourse/classes/helper.php:158-191 | The two loops compute exactly the fold `EnrolmentData`. |
| `FieldData.EnrolmentColumnNames` | admin/tool/uploadcourse/classes/helper.php:165 | Every column name `enrolment_<digits>[_<option>]` is parsed back to its number and option, also with one trailing newline. |
| `FieldData.EnrolmentColumnShape` | admin/tool/uploadcourse/classes/helper.php:165 | Every accepted column is such a name, possibly followed by one newline. |
| `FieldData.CollectDistinct` | admin/tool/uploadcourse/classes/helper.php:161-176 | The method and option arrays list each method number once. |
| `FieldData.CollectOptionKeys` | admin/tool/uploadcourse/classes/helper.php:166-169 | The numbers with an options array are exactly the numbers of accepted columns. |
| `FieldData.CollectMethodKeys` | admin/tool/uploadcourse/classes/helper.php:170-171 | The numbers with a method are exactly those of accepted columns whose option is empty, which includes the option "0". |
| `FieldData.CollectMethodValue` | admin/tool/uploadcourse/classes/helper.php:171 | A number's method is the value of its last method column. |
| `FieldData.CollectOptionValue` | admin/tool/uploadcourse/classes/helper.php:173 | An option's value is that of the last column naming it. |
| `FieldData.OptionFromColumn` | admin/tool/uploadcourse/classes/helper.php:165-174 | Conversely, every option recorded for a number comes from a column naming that number and that option. The option is not empty, and the recorded value is that column's value. |
| `FieldData.CollectOptionsDistinct` | admin/tool/uploadcourse/classes/helper.php:166-174 | Each number's options array names each option once. |
| `FieldData.CombineFrom` | admin/tool/uploadcourse/classes/helper.php:180-189 | Every plugin listed got the options array of some number whose method names it. |
| `FieldData.CombineKeys` | admin/tool/uploadcourse/classes/helper.php:180-189 | The result lists exactly the methods that name an installed plugin, each once. |
| `FieldData.CombineValue` | admin/tool/uploadcourse/classes/helper.php:187 | A plugin's options are those of the last number that names it. |
| `FieldData.EnrolmentDataPlugins` | admin/tool/uploadcourse/classes/helper.php:158-191 | Every plugin in the result is installed, listed once, and is the value of some method column. |
| `FieldData.EnrolmentDataOptions` | admin/tool/uploadcourse/classes/helper.php:158-191 | The options listed for a plugin name each option once. They belong to one number whose method column names the plugin: every listed option o comes from a column `enrolment_<number>_<o>` with a non-empty o, and has that column's value. |
| `FieldData.EnrolmentDataComplete` | admin/tool/uploadcourse/classes/helper.php:158-191 | The last method column of a number shows up when its value names an installed plugin. |
| `FieldData.EnrolmentDataExample` | admin/tool/uploadcourse/classes/helper.php:158-191 | Method 1 with an option, and a method 2 naming an uninstalled plugin, give only method 1 with its option. |
| `FieldData.RoleColumnNames` | admin/tool/uploadcourse/classes/helper.php:323 | `role_<shortname>` is parsed back to the shortname, also with one trailing newline. |
| `FieldData.RoleColumnShape` | admin/tool/uploadcourse/classes/helper.php:323 | Every accepted role column is such a name. |
| `FieldData.GetRoleNames` | admin/tool/uploadcourse/classes/helper.php:316-339 | The loop computes exactly the fold `RoleNames`. `invalidroles` is added to the errors exactly when the list of invalid shortnames is not empty. |
| `FieldData.RoleKeyInjective` | admin/tool/uploadcourse/classes/helper.php:328 | Different role ids give different `role_<id>` keys. |
| `FieldData.CollectRoleKeys` | admin/tool/uploadcourse/classes/helper.php:324-328 | A role is renamed exactly when some column names a known shortname with its id. Each key is stored once. |
| `FieldData.CollectRoleKeysShape` | admin/tool/uploadcourse/classes/helper.php:328 | Every stored key is `role_<id>` of a known shortname in some column. |
| `FieldData.CollectRoleValue` | admin/tool/uploadcourse/classes/helper.php:328 | A role's new name is the value of the last column that names it. |
| `FieldData.CollectInvalid` | admin/tool/uploadcourse/classes/helper.php:324-326 | The invalid list holds exactly the shortnames of role columns that are not known roles. |
| `FieldData.InvalidRolesError` | admin/tool/uploadcourse/classes/helper.php:333-335 | The `invalidroles` error is raised exactly when some role column names an unknown shortname. |
| `FieldData.RoleNamesExample` | admin/tool/uploadcourse/classes/helper.php:316-339 | A known and an unknown role column: the known one is stored under `role_<id>`, and the unknown one is reported. |

## Left out

- `get_restore_content_dir`, `get_course_formats`, `get_enrolment_plugins`, `get_role_ids` and the class in `tracker.php` are not part of this model. The plugin set and the role id map are parameters.
- The two status messages of the path walk, and the exception, are event or outcome constructors. Their language strings and arguments are not modelled. The `couldnotresolvecatgorybyid`, `couldnotresolvecatgorybyidnumber` and `invalidroles` errors are keys in a set of strings. The text of `invalidroles`, which lists the shortnames joined by ", ", is left out; `FieldData.InvalidRoles` gives that list.
- The debugging dump of the virtual table (lines 588-591) is output only and is left out.
- The cache is a map inside the state, with no expiry and no sharing across requests.
- `coursecat::create` is not modelled. Its failure is the parameter `refused`. A created row gets the next auto-increment id, and its idnumber is "".
- The path query returns rows in store order. Database collation, case folding and query order are not modelled. The same holds for the idnumber query, which answers the first row with that idnumber.
- Integers are unbounded. PHP's switch to floats for huge digit runs in `increment_idnumber` and `increment_shortname` is not modelled.
- The `core_text` case functions and `clean_param(PARAM_TEXT)` are opaque parameters. `core_text::substr` is modelled as taking a prefix of the characters.
- Line 79 of helper.php calls `str_replace_callback`. That is not a PHP built-in, and it is not defined in helper.php, so its definition is not part of this model. It is passed a PCRE pattern and a callback, so the model reads it as PHP's `preg_replace_callback`: every non-overlapping match, left to right, is replaced by the callback's answer. A failure where it would return null is not modelled, and neither is a null template.
- The callback's default branch (line 109) cannot be reached, because the pattern only matches `f` or `i`.
- `ShortnameTemplate.GenerateShortname`: its own contract states only the no-`%` cases and non-emptiness. For templates with placeholders, `ShortnameTemplate.PlaceholderReplaced` states that every occurrence of the pattern is replaced by the callback's answer, in place. `ShortnameTemplate.TokensSource` states that the scan loses no text. The whole expanded string has no closed form beyond `ShortnameTemplate.Expand` itself.
- `CategoryPath.ResolvePreview` and `CategoryPath.WalkPreview`: they state the shape only with creation allowed. In preview without permission, the denial branch is the same as in commit mode. It is stated for commit mode by `CategoryPath.StepCommit` and `CategoryPath.WalkCommitEvents`, and for both modes only by the general lemmas (`CategoryPath.WalkKeepsValid`, `CategoryPath.WalkFrame`, `CategoryPath.ResolveStoresId`).
- The record objects are values: the model does not capture aliasing between the table and the answer.
- `CategoryLookup.ResolveCategorySpec` and `Resolver.Resolver.ResolveCategory` use the corrected path branch `CategoryLookup.PathCatId`, not the branch as written (see Findings). `CategoryLookup.PathCatIdAgrees` shows the two differ only when a new record's flattened path is `id`.
- `Resolver.Resolver.constructor`: the helper's static course object starts unset in PHP, and calling the path walk before `set_course_obj` would fail on a null object. The model starts instead with both flags false and an empty log, so such a call behaves as for a course that may not create categories.
- `PhpText.Intval` reads only leading white space, an optional sign and decimal digits. PHP 7.1 and later also read an exponent, so `(int)"1e3"` is 1000 there and 1 in the model. This matters only for the id column (line 401).
- `CategoryPath.Valid` does not require stored ids to stay below 9000000000. The code relies on real and virtual ids not meeting, and the model does not state that.
- Three behaviours of helper.php that a reader might not expect are modelled as written:
  - A preview walk that mints records returns the array of those records, keyed by their paths (lines 541-543 and 593), and not an id. `resolve_category` then takes the last record's id (lines 427-429).
  - The cache key is built from the path alone (line 478), so preview and commit calls share one path cache entry.
  - The exception at line 551 is thrown before the cache write at line 575, so a failed creation caches nothing. Categories created earlier in the same walk stay.

## Findings

| source | as written | input that shows it | evidently intended | confidence | as-written member | corrected member |
|---|---|---|---|---|---|---|
| admin/tool/uploadcourse/classes/helper.php:423-424 | `isset($result['id'])` is also true when a newly minted record's flattened path is literally `id`, and `$catid` then becomes that record object | preview mode, creation allowed, empty table, category path `id` (`CategoryLookup.IdKeyCounterexample`) | take the id of the last new record, as the comment on line 419 describes (array case) and the loop on lines 427-429 computes | not executed | `CategoryLookup.PathCatIdAsWritten` | `CategoryLookup.PathCatId` |
