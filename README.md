# Spy-cat agency business rules, in Dafny

This project models the business-rule layer of a small agency backend, `backend/app/crud.py`. The agency tracks field agents ("cats"), missions, and the one to three targets of each mission. It has two parts.

- **The breed validator.** A process-wide snapshot `(timestamp, ids, names)` of a remote breed registry, trusted for one hour. When the snapshot is missing or stale it is refreshed from the registry. If the registry call fails, a built-in fallback set is used instead; it gets the current timestamp and is cached like a real answer. A breed is valid when its stripped, lower-cased form is one of the cached ids or names. This is the class `Breeds.BreedCache` with its single `snapshot` field. `Breeds.Refresh` is the function that specifies one lookup.
- **The domain service.** A state machine over three tables, the class `Service.Store` with the fields `cats`, `missions`, `targets` and an id counter. It has:
  - guarded deletes for cats and missions, with targets deleted along with their mission;
  - all-or-nothing creation of a mission with 1 to 3 targets whose names differ after stripping and lower-casing;
  - assignment of a cat to a mission, refused when the cat already has an incomplete mission;
  - target updates where notes are frozen once the target or its mission is complete, and completion only goes from false to true;
  - automatic completion of a mission once all its targets are complete.

  Each failure returns `Err` with the matching code (`Entities.Error`), and on every failure the store is unchanged.

The store invariant, `Entities.StoreInvariant`, is kept by every operation. It says:
- every row sits under its own id, below the next id;
- every target belongs to a mission that exists;
- every assigned cat exists;
- no cat has two incomplete missions;
- target names are unique within a mission, compared stripped and lower-cased;
- every mission has targets, and it is complete exactly when all of them are.

`Entities.Evolves` states what no operation may do to an existing row:
- a mission or target completion never reverts;
- frozen notes never change;
- a target keeps its mission, name and country.

`Entities.EvolvesTransitive` shows that these guarantees compose across a sequence of operations.

Modules:
- `Wrappers`: `Option`.
- `Text`: Python's `str.strip()` and `str.lower()` on `seq<char>`.
- `Breeds`: the breed validator.
- `Entities`: rows, error codes, and the value-level predicates and lemmas about the tables.
- `Service`: the `Store` class.
- `Scenarios`: request sequences against a fresh store, each with its outcome as a postcondition.

Two consequences of the code that are easy to miss:
- **Deleting a cat releases its completed missions.** `Mission.assigned_cat_id` is a nullable foreign key with `ondelete="SET NULL"` (`backend/app/models.py:26`), and `Cat.missions` has no delete cascade. So deleting a cat sets the reference to null on each of the cat's missions. Those missions are all complete, because a cat with an incomplete mission cannot be deleted. `Service.Store.DeleteCat` does the same, through `Entities.ReleaseCat`.
- **An incomplete mission can change hands.** `assign_cat_to_mission` (`backend/app/crud.py:161-176`) never looks at the mission's current assignee. So an incomplete mission that is assigned to one cat can be assigned to another idle cat. `Scenarios.ReassignmentIsAllowed` shows this. The model therefore does not claim that the assignee is set at most once. It proves the guarantee that does hold: no cat has more than one incomplete mission.

Other modelling choices:
- One counter, `nextId`, hands out the ids of all three tables. The rules only need fresh ids; the model does not reproduce SQLite's actual row ids.
- The current time is an `int` parameter, `now`, in seconds.
- The registry call is a parameter, `fetch: FetchOutcome`: either the decoded list of entries, where each entry's id and name may be absent, or a failure of any kind.
- The breed check that the HTTP route runs before `create_cat` is `Service.Store.RegisterCat`.
- The duplicate-name failure in mission creation happens after the mission row has been flushed but before any commit, so the session rolls it back. The model therefore checks the names before it stores anything.
- The auto-completion that runs after a target update commits is the last step of `Service.Store.UpdateTarget`.

## Model

| member | source | states |
|---|---|---|
| Text.Trim | backend/app/crud.py:47-49 | `strip()` leaves neither a leading nor a trailing whitespace character and never lengthens the string |
| Text.TrimStartSpec | backend/app/crud.py:49 | the leading strip removes a whitespace-only prefix and stops at the first other character |
| Text.TrimEndSpec | backend/app/crud.py:49 | the trailing strip removes a whitespace-only suffix and stops at the last other character |
| Text.TrimOfPadded | backend/app/crud.py:49 | stripping whitespace padding around a non-empty unpadded text gives back exactly that text |
| Text.TrimOfUntrimmable | backend/app/crud.py:56-58 | a string with no outer whitespace is stored as it is |
| Text.TrimEmptyIffAllSpace | backend/app/crud.py:47 | `breed.strip()` is empty exactly when every character of the breed is whitespace |
| Text.TrimIdempotent | backend/app/crud.py:56-58 | stripping a stored, already stripped value changes nothing |
| Text.LowerCharSpec | backend/app/crud.py:49 | lower-casing a character yields no capital, keeps whether it is whitespace, and leaves non-capitals alone |
| Text.LowerKeepsNoOuterSpace | backend/app/crud.py:49 | lower-casing a stripped string leaves it stripped |
| Text.LowerWordsAreNormal | backend/app/crud.py:40-41 | lower-case words separated by single blanks are already in the compared form |
| Text.NormalizeIsNormalForm | backend/app/crud.py:49 | `strip().lower()` yields a string with no outer whitespace and no capital |
| Text.NormalFormIsFixed | backend/app/crud.py:49 | `strip().lower()` leaves a string that is already in that form unchanged |
| Text.NormalizeIdempotent | backend/app/crud.py:49 | applying `strip().lower()` twice is applying it once |
| Text.NormalizeOfTrim | backend/app/crud.py:121-128 | a target's stored, stripped name has the same duplicate key as its input name |
| Text.NormalizeEmptyIffBlank | backend/app/crud.py:47-49 | the compared form is empty exactly when the stripped breed is empty |
| Breeds.RegistryIds | backend/app/crud.py:24 | the set holds exactly the stripped, lower-cased ids of the entries that have one, so entries without an id add nothing; every id kept is in the compared form |
| Breeds.RegistryNames | backend/app/crud.py:25 | the set holds exactly the stripped, lower-cased names of the entries that have one; every name kept is in the compared form |
| Breeds.Refresh | backend/app/crud.py:33-42 | defines the snapshot after one lookup: an existing snapshot younger than an hour is kept; otherwise a new one is stamped `now` and holds the answer's ids and names, or the fallback sets when the registry call failed |
| Breeds.IsKnownBreed | backend/app/crud.py:47-51 | defines validity: the stripped breed is non-empty and its stripped, lower-cased form is a cached id or a cached name |
| Breeds.FallbackIsNormalized | backend/app/crud.py:40-41 | the fallback ids and names are all in the compared form |
| Breeds.RefreshKeepsNormalized | backend/app/crud.py:29-43 | no lookup ever caches an id or name that is not in the compared form |
| Breeds.RefetchedSnapshotIsReused | backend/app/crud.py:33-42 | a snapshot taken at `now` serves every lookup before `now` plus one hour unchanged, whatever the registry would answer then |
| Breeds.StaleSnapshotIsReplaced | backend/app/crud.py:33-42 | a snapshot at least an hour old is replaced by one stamped with the current time |
| Breeds.FailedFetchAcceptsFallbackName | backend/app/crud.py:36-51 | with the registry unreachable and nothing fresh cached, "bengal" validates |
| Breeds.FailedFetchAcceptsPaddedName | backend/app/crud.py:36-51 | with the registry unreachable, "  Maine Coon " validates: padding and case do not matter |
| Breeds.FailedFetchAcceptsFallbackId | backend/app/crud.py:36-51 | with the registry unreachable, the id "SIAM" validates |
| Breeds.FailedFetchRejectsUnknown | backend/app/crud.py:36-51 | with the registry unreachable, "persian" does not validate |
| Breeds.BlankBreedIsUnknown | backend/app/crud.py:47-48 | an empty or whitespace-only breed never validates, whatever is cached |
| Breeds.KnownBreedIgnoresCaseAndPadding | backend/app/crud.py:49-51 | two breeds with the same stripped, lower-cased form are both valid or both invalid |
| Breeds.CachedEntryValidates | backend/app/crud.py:49-51 | every non-empty cached id or name, typed as cached, validates |
| Breeds.RegistryBreedValidates | backend/app/crud.py:25 | after a successful refresh, every non-blank name in the registry's answer validates, in whatever case or padding it came |
| Breeds.UnlistedBreedIsRejected | backend/app/crud.py:49-51 | after a successful refresh, a breed that no entry names, by id or by name, does not validate |
| Breeds.BreedCache.constructor | backend/app/crud.py:14 | the process starts with no snapshot |
| Breeds.BreedCache.Lookup | backend/app/crud.py:29-43 | a fresh snapshot is returned as it is; otherwise the snapshot becomes `(now, answer)` or `(now, fallback)`, and the sets returned are the ones now cached |
| Breeds.BreedCache.ValidateBreed | backend/app/crud.py:46-51 | a blank breed is refused and the cache is left alone; any other breed refreshes the cache as `Lookup` does and is accepted exactly when its compared form is a cached id or name |
| Entities.HasActiveMission | backend/app/crud.py:87-91 | the count of the cat's assigned incomplete missions is non-zero exactly when some mission is assigned to the cat and not complete |
| Entities.ActiveIdsCount | backend/app/crud.py:87-91 | the counted set is non-empty exactly when such a mission exists |
| Entities.ActiveCountAtMostOne | backend/app/crud.py:87-91 | under the exclusivity invariant the count is 0 or 1 |
| Entities.TargetsOf | backend/app/models.py:33 | a mission's targets are exactly the rows whose mission id is that mission, with their contents |
| Entities.CountsDecideCompletion | backend/app/crud.py:220-226 | "more than zero targets and as many complete as there are" holds exactly when the mission has targets and all of them are complete |
| Entities.CompletionDue | backend/app/crud.py:220-226 | the counting test is true exactly when the mission has targets and all are complete |
| Entities.NameKeysMember | backend/app/crud.py:119-124 | after `n` inputs, the seen set holds exactly the keys of those inputs |
| Entities.UniqueUpToIff | backend/app/crud.py:119-124 | the loop's check passes the first `n` inputs exactly when no two of them share a key |
| Entities.UniqueUpToAll | backend/app/crud.py:119-124 | when all keys are unique, every prefix passes; all inputs pass exactly when all keys are unique |
| Entities.RepeatedKeyIsNotUnique | backend/app/crud.py:121-123 | an input whose key is already in the seen set makes the request's names not unique |
| Entities.NotesOrNone | backend/app/crud.py:130 | `notes or None`: a non-empty note is kept, and an absent or empty note is stored as none (a stored note is always the given, non-empty one) |
| Entities.NewTargetsKeys | backend/app/crud.py:126-133 | a mission's new rows use exactly the ids after the mission's own, one per input |
| Entities.NewTargetsAt | backend/app/crud.py:126-132 | input `k` becomes, in order, the row with id `mid + 1 + k`: stripped name and country, `notes or None`, incomplete |
| Entities.NewTargetsBelongToMission | backend/app/crud.py:126-132 | every new row carries its own id and the new mission's id, and starts incomplete |
| Entities.NewTargetNamesDiffer | backend/app/crud.py:121-128 | two inputs with different keys are stored under names with different keys |
| Entities.NewTargetsNamesUnique | backend/app/crud.py:119-133 | the new rows have names that are unique within the mission, compared stripped and lower-cased |
| Entities.NewTargetsStartIncomplete | backend/app/crud.py:112-132 | a new mission has targets and they are not all complete |
| Entities.ReleaseCat | backend/app/models.py:26 | after the cat is deleted, every mission that named it has its assignee set to none and is otherwise unchanged; missions that named another cat, or none, are unchanged |
| Entities.UpdatedTarget | backend/app/crud.py:198-205 | an accepted update keeps id, mission, name and country; replaces the notes when given; and leaves the target complete exactly when it was, or when completion was requested |
| Entities.EvolvesTransitive | backend/app/crud.py:194-211 | the history guarantees carry over two steps, so they hold across any sequence of operations |
| Entities.TargetUpdateEvolves | backend/app/crud.py:194-205 | an accepted target update, with notes only when they are not frozen, meets the history guarantees |
| Entities.UntouchedRowsEvolve | backend/app/crud.py:150-158 | removing rows and leaving the others as they were meets the history guarantees |
| Entities.ReplaceTargetKeepsMembership | backend/app/crud.py:198-205 | rewriting a target within its mission changes no mission's set of targets, nor the completion of any other mission |
| Entities.AddTargetsKeepsOtherMission | backend/app/crud.py:126-133 | adding another mission's rows changes nothing about mission `m`'s targets |
| Entities.TargetsWithout | backend/app/models.py:33 | the rows left after the cascade are the old rows of every other mission |
| Entities.CascadePartitions | backend/app/models.py:33 | the cascade splits the table exactly into the deleted mission's targets and all the others |
| Entities.CascadeKeepsOtherMission | backend/app/crud.py:150-158 | deleting a mission's targets changes nothing about any other mission's targets or completion |
| Entities.AddMissionTargets | backend/app/crud.py:119-135 | the new mission's rows join the table without clashing names, and they are that mission's only targets |
| Entities.CreationIds | backend/app/crud.py:115-133 | the new rows use fresh ids, above the mission's id and below the next counter |
| Entities.CreationConsistent | backend/app/crud.py:106-138 | creating a mission with uniquely named targets keeps ids, ownership, assignments, exclusivity and name uniqueness |
| Entities.CreationCompletion | backend/app/crud.py:106-138 | creating a mission with at least one target keeps completion tracking for every mission, the new one included |
| Entities.CreationEvolves | backend/app/crud.py:106-138 | creating a mission changes no existing row |
| Entities.CreationKeepsInvariant | backend/app/crud.py:106-138 | creating a mission with 1 or more uniquely named targets keeps the whole store invariant |
| Entities.TargetRewriteKeeps | backend/app/crud.py:198-211 | rewriting a target in place keeps everything except the completion of its own mission, which still has targets |
| Entities.CompleteIffCountsAgree | backend/app/crud.py:216-229 | under the invariant a mission is complete exactly when the counting test says it is due |
| Service.Store.CreateCat | backend/app/crud.py:54-64 | stores a new cat under a fresh id, with stripped name and breed and the given experience and salary; nothing else changes |
| Service.Store.RegisterCat | backend/app/routers/cats.py:18-22 | validates the breed first and refuses an unknown one with the store unchanged; otherwise creates the cat as `CreateCat` does |
| Service.Store.GetCat | backend/app/crud.py:72-73 | returns the cat stored under the id, or none when there is no such cat |
| Service.Store.ListCats | backend/app/crud.py:67-69 | returns exactly the stored cats |
| Service.Store.UpdateCatSalary | backend/app/crud.py:76-84 | a missing cat gives NotFound with the store unchanged; otherwise only that cat's salary changes |
| Service.Store.DeleteCat | backend/app/crud.py:94-103 | NotFound for a missing cat and CatHasActiveMission for a busy one, both with the store unchanged; otherwise exactly that cat is removed and its (complete) missions stop naming it |
| Service.Store.CreateMissionWithTargets | backend/app/crud.py:106-138 | TargetsCountOutOfRange unless there are 1 to 3 inputs, then TargetNameNotUniqueInMission if two keys collide, both with nothing stored; otherwise one unassigned, incomplete mission plus exactly the rows of its inputs |
| Service.Store.StageTargets | backend/app/crud.py:119-133 | the loop fails exactly when two names collide after stripping and lower-casing, and otherwise prepares exactly the rows of the inputs, in order |
| Service.Store.CommitMission | backend/app/crud.py:115-138 | stores the mission and its prepared rows, advances the counter past them, and keeps the invariant |
| Service.Store.GetMission | backend/app/crud.py:146-147 | returns the mission stored under the id, or none |
| Service.Store.ListMissions | backend/app/crud.py:141-143 | returns exactly the stored missions |
| Service.Store.DeleteMission | backend/app/crud.py:150-158 | NotFound for a missing mission and MissionAssignedCannotDelete for an assigned one, both with the store unchanged; otherwise the mission and exactly its targets are removed |
| Service.Store.AssignCatToMission | backend/app/crud.py:161-176 | the four failures, in the source's order, each with the store unchanged; otherwise only that mission's assignee changes, and no cat ends up with two incomplete missions |
| Service.Store.UpdateTarget | backend/app/crud.py:179-213 | NotFound for a missing mission, a missing target or a target of another mission; NotesFrozen when notes come for a complete target or mission, even with a completion request; otherwise the target becomes `UpdatedTarget`, nothing changes when nothing applies, and the mission ends complete exactly when all its targets are |
| Service.Store.MaybeCompleteMission | backend/app/crud.py:216-229 | an incomplete mission becomes complete exactly when the counting test holds, and the invariant is restored |
| Scenarios.DuplicateNamesCreateNothing | backend/app/crud.py:112-123 | "Bob" and "bob" in one request give TargetNameNotUniqueInMission with nothing stored; no targets at all gives TargetsCountOutOfRange |
| Scenarios.BusyCatIsHeld | backend/app/crud.py:94-103 | a cat on an incomplete mission can neither take a second one nor be deleted |
| Scenarios.CompletionFreesTheCat | backend/app/crud.py:203-229 | completing a mission's only target completes the mission, and the cat can take another mission |
| Scenarios.NotesFreezeOnCompletion | backend/app/crud.py:194-196 | notes for a target of a complete mission give NotesFrozen, even when completion is also requested |
| Scenarios.ReassignmentIsAllowed | backend/app/crud.py:161-176 | an incomplete mission assigned to one cat can be assigned to another idle cat |
| Scenarios.DeleteMissionCascades | backend/app/crud.py:150-158 | an assigned mission cannot be deleted; an unassigned one can |
| Scenarios.FallbackBreeds | backend/app/crud.py:33-34 | within the hour the cached fallback answers, even when the registry would now answer |

## Left out

- Text.Lower: only the ASCII capitals are lower-cased. Python's `str.lower()` also folds the other Unicode capitals, and Dafny has no Unicode case tables.
- The network request, with its URL, timeout and JSON decoding (`backend/app/crud.py:18-26`), is a parameter. An answer is either the list of entries, each with an optional id and name, or one failure value that stands for every kind of exception. A non-string id or name, which raises and so leads to the fallback, counts as such a failure.
- The process-wide lock (`backend/app/crud.py:13, 32`) is not modelled. Each call is atomic.
- `time.time()` is the `now` parameter, as whole seconds rather than a float.
- The `created_at` and `updated_at` timestamps are not modelled. No rule reads them.
- `list_cats` paging (offset and limit) is not modelled. `Service.Store.ListCats` returns every cat, as a set: the query has no order.
- Missions are returned without their loaded targets relationship. `Entities.TargetsOf` is that relationship.
- Schema bounds: years and salary are `nat`, so they are at least 0. The maximum string lengths are not modelled, and names are not required to be non-empty.
- Ids: one shared counter stands in for the database's row ids. Whether SQLite reuses ids is not modelled.
- The case-sensitive database uniqueness on (mission, name) is not modelled. The stricter case-insensitive check of mission creation subsumes it.
- HTTP routing, status codes, the application setup, and the browser front end are not modelled.
- Storage failures and commit errors are not modelled. A commit always succeeds.
