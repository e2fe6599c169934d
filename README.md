# Exercise import, modelled in Dafny

This project models the exercise import of a Laravel application. The Artisan command
`exercises:import` walks a fixed list of 19 muscle groups. For each group it fetches the
exercises from the ExerciseDB API, page by page, retrying with exponential backoff. It
saves them in chunks of 50 inside one database transaction, upserting by `exercise_id`.
After each committed group it moves a resume cursor to that group, and it clears the
cursor once every group is done. The model also covers the pure helpers of the
`Exercise` model: the equipment classifier, the category label and the instruction
formatter.

Modules:

- `ExerciseModel` covers `app/Models/Exercise.php`: the row, the category constants,
  `determineCategory`, the category label and the formatted instructions.
- `Fetching` is the specification of `fetchExercisesForMuscle` as a state machine over
  a finite script of HTTP responses (`Fetch`). Its lemmas cover the backoff schedule,
  the retry counter shared by both loops, the restart after an exception, the exit
  conditions and the page assembly.
- `Upserting` is the specification of the save: `array_chunk`, `updateOrCreate` keyed
  on `exercise_id` (`Upserted`), and the all-or-nothing transaction over a script of
  database faults (`Save`).
- `Walking` is the specification of `handle`: the resume start index, one muscle
  (`ImportMuscle`), the walk over the remaining muscles (`Walk`) and the whole command
  (`Import`). Its lemmas cover the store, the cursor, the total and the request log.
- `Statistics` is the specification of the counting loops of `showStatistics`.
- `ImportCommand` is the command itself, as a class. Its fields are the store, the
  cached cursor, the response script with the request log, the sleep log and the
  database's fault script. Each method is proved equal to the corresponding
  specification function: `FetchExercisesForMuscle` to `FetchMuscle`, `ProcessMuscle`
  to `ImportMuscle`, `Handle` to `Import`, and the counting loops to `Tallied`.

The outside world becomes explicit state:

- `Http::get` consumes the next scripted `Response` (a status with a decoded page, or
  an exception) and logs the request target.
- `sleep` appends the seconds to a log.
- Each `updateOrCreate` consumes one boolean of the database's script; `true` makes
  that write throw.
- The cache is the optional `cursor` field.

A run can also end because the response script ran out (`ScriptEnded`, `Unfinished`).
This is the price of a finite script. The model says nothing about what the command
would do next.

Two behaviours of the code are modelled as written:

- **A cursor missing from the list restarts at 1.** When the cached muscle is not in
  the list, `array_search` returns `false`, and `false + 1` is 1. The walk then starts
  at the second muscle and skips `abductors`; index 0 would be the fallback that skips
  nothing. The model follows the code (`StartIndex`).
- **429s on later pages are not capped.** On a later page, a rate-limit answer retries
  without looking at the retry budget (`React`, the `Reply(429, _)` case). Only the
  script's length bounds it.

## Model

| member | source | states |
|---|---|---|
| `ExerciseModel.DetermineCategory` | app/Models/Exercise.php:96-119 | the category is always one of 1 (strength), 2 (bodyweight), 3 (cardio) |
| `ExerciseModel.KeywordListsDisjoint` | app/Models/Exercise.php:98-107 | no equipment keyword is both a cardio and a strength keyword |
| `ExerciseModel.FirstDecisiveItemDecides` | app/Models/Exercise.php:109-116 | the first list item that is a cardio or strength keyword (after lower-casing) decides: 3 if cardio, 1 if strength; earlier non-matching items are skipped; a strength keyword there always gives 1, since no keyword is also a cardio one |
| `ExerciseModel.BodyweightIffNothingDecisive` | app/Models/Exercise.php:109-118 | the result is 2 exactly when no item matches either keyword list; the empty list included |
| `ExerciseModel.DetermineCategoryIgnoresCase` | app/Models/Exercise.php:110-113 | replacing any item by a spelling with the same `strtolower` folding does not change the category |
| `ExerciseModel.CaseVariantsClassifyAlike` | app/Models/Exercise.php:110-113 | replacing an item by its lower-case or its upper-case variant does not change the category |
| `ExerciseModel.Lower` | app/Models/Exercise.php:110-113 | ASCII `strtolower`: folds only `A`-`Z` and leaves every other character as it is; characterized by `LowerAbsorbs` and `DetermineCategoryIgnoresCase` |
| `ExerciseModel.IsCardio` | app/Models/Exercise.php:110 | `in_array(strtolower($equipment), $cardioEquipment)`: the folded item is one of the five cardio keywords; characterized by `FirstDecisiveItemDecides`, `KeywordListsDisjoint` and `CardioExamples` |
| `ExerciseModel.IsStrength` | app/Models/Exercise.php:113 | `in_array(strtolower($equipment), $strengthEquipment)`: the folded item is one of the eleven strength keywords; characterized by `FirstDecisiveItemDecides`, `KeywordListsDisjoint` and `StrengthExamples` |
| `ExerciseModel.LowerAbsorbs` | app/Models/Exercise.php:110 | ASCII folding is idempotent and undoes an upper-casing |
| `ExerciseModel.CardioExamples` | app/Models/Exercise.php:109-112 | "Treadmill" is cardio, also when a strength item follows it |
| `ExerciseModel.StrengthExamples` | app/Models/Exercise.php:109-116 | "Barbell" is strength; in ["body weight", "DUMBBELL", "treadmill"] the dumbbell decides before the treadmill |
| `ExerciseModel.BodyweightExample` | app/Models/Exercise.php:109-118 | equipment in neither list ("Body weight") gives bodyweight |
| `ExerciseModel.CategoryName` | app/Models/Exercise.php:74-82 | the accessor's `match`; its table is stated by `CategoryNames` |
| `ExerciseModel.CategoryNames` | app/Models/Exercise.php:74-82 | 1, 2 and 3 are labelled "Strength Training", "Bodyweight" and "Cardio"; every other value, and only those, is "Unknown" |
| `ExerciseModel.ClassifiedRowsHaveAName` | app/Models/Exercise.php:76-118 | a category computed by the classifier never shows as "Unknown" |
| `ExerciseModel.HasStepPrefix` | app/Models/Exercise.php:91 | `/^Step:\d+\s*/` matches: the instruction starts with `Step:` and a digit; characterized by `StripStepPrefix`, `StripsExactlyTheMarker`, `KeepsSpacedMarker` and `KeepsLowerCaseMarker` |
| `ExerciseModel.StripStepPrefix` | app/Models/Exercise.php:91 | the result is a suffix of the instruction; an instruction without `Step:` and a digit at its start comes back unchanged |
| `ExerciseModel.FormattedInstructions` | app/Models/Exercise.php:87-93 | same length and order as the instructions; each element is a suffix of its original; unmarked instructions are untouched |
| `ExerciseModel.StripsExactlyTheMarker` | app/Models/Exercise.php:91 | `Step:`, then a digit run, then a white-space run, before a text that continues neither run: exactly the text remains |
| `ExerciseModel.StripsMarkerAndSpaces` | app/Models/Exercise.php:91 | "Step:12\t Lift" becomes "Lift" |
| `ExerciseModel.KeepsSpacedMarker` | app/Models/Exercise.php:91 | "Step: 3 Go" has no digit after the colon and is kept as is |
| `ExerciseModel.KeepsLowerCaseMarker` | app/Models/Exercise.php:91 | the match is case-sensitive: "step:3 Go" is kept as is |
| `Fetching.Truthy` | app/Console/Commands/ImportExercisesFromApi.php:53 | PHP truthiness of the nullable strings `$lastMuscle` (:53) and `$nextPage` (:171): null, `""` and `"0"` are false; pinned down by `StartIndex`'s ensures and used by `Continues` |
| `Fetching.Successful` | app/Console/Commands/ImportExercisesFromApi.php:152 | `$response->successful()` (:152, :182): a status from 200 to 299; decides the failure-status branch stated by `FailureStatusEndsFetch` |
| `Fetching.Target` | app/Console/Commands/ImportExercisesFromApi.php:141-172 | the request of the loop: the muscle's exercises URL on page 1 (:141-142), the `nextPage` link on a later page (:172); characterized by `FetchRequestsOnlyItsMuscle`, `PaginationAssembly` and `ImportMuscleOpensWithItsPage` |
| `Fetching.Seconds` | app/Console/Commands/ImportExercisesFromApi.php:146 | the seconds of one sleep: `retryDelay * 2^(retry-1)` for a backoff, 2 for the page pause; characterized by `BackoffSecondsOfRetries` and `BackoffSchedule` |
| `Fetching.React` | app/Console/Commands/ImportExercisesFromApi.php:139-207 | the loop's reaction to one response: exception, 429, failing status, or success on page 1 or a later page; characterized by `RestartAfterException`, `FailureStatusEndsFetch`, `RaisesOnlyWhenBudgetSpent` and `RetriesAreConsecutive` |
| `Fetching.Continues` | app/Console/Commands/ImportExercisesFromApi.php:138-171 | the two `while` conditions: page 1 is requested while the retry count is below `maxRetries` (:138), a later page while `nextPage` is truthy and the current page is below `totalPages` (:171); characterized by `RaisesOnlyWhenBudgetSpent`, `ThreeRateLimitsOnFirstPage` and `PaginationAssembly` |
| `Fetching.FetchMuscle` | app/Console/Commands/ImportExercisesFromApi.php:132-141 | a muscle's fetch starts with retry count 0 on page 1; characterized by `BackoffSchedule`, `PaginationAssembly`, `FetchRequestsOnlyItsMuscle` and `ImportMuscleOpensWithItsPage` |
| `Fetching.Fetch` | app/Console/Commands/ImportExercisesFromApi.php:138-211 | one request per consumed response, at most one sleep per request; a run that ends for lack of script has consumed all of it |
| `Fetching.FetchRequestsOnlyItsMuscle` | app/Console/Commands/ImportExercisesFromApi.php:141-142 | the only first-page URL a fetch requests is its own muscle's |
| `Fetching.RetriesAreConsecutive` | app/Console/Commands/ImportExercisesFromApi.php:135-207 | from retry count n, the backoffs carry retry numbers n+1, n+2, ... without a gap, across both loops: the counter is shared and never reset |
| `Fetching.BackoffSecondsOfRetries` | app/Console/Commands/ImportExercisesFromApi.php:146 | the backoff before retry k sleeps `retryDelay * 2^(k-1)` |
| `Fetching.BackoffSchedule` | app/Console/Commands/ImportExercisesFromApi.php:144-148 | the i-th backoff of a muscle's fetch (from 0, over all pages) sleeps `retryDelay * 2^i` |
| `Fetching.RaisesOnlyWhenBudgetSpent` | app/Console/Commands/ImportExercisesFromApi.php:200-204 | a fetch rethrows only on an exception as its last response, once at least `maxRetries - 1` backoffs (counting those before the given retry count) have been slept |
| `Fetching.ThreeRateLimitsOnFirstPage` | app/Console/Commands/ImportExercisesFromApi.php:138-211 | three 429s on page 1: three requests, sleeps `[d, 2d, 4d]`, an empty result and no exception |
| `Fetching.ThreeExceptionsOnFirstPage` | app/Console/Commands/ImportExercisesFromApi.php:200-208 | three exceptions on page 1: the third is rethrown after sleeps `[d, 2d]` |
| `Fetching.RestartAfterException` | app/Console/Commands/ImportExercisesFromApi.php:138-208 | an exception on a later page within budget backs off and starts over at page 1, dropping the pages fetched so far |
| `Fetching.FailureStatusEndsFetch` | app/Console/Commands/ImportExercisesFromApi.php:152-198 | a failing status other than 429 ends the fetch: empty on page 1, the pages so far on a later page |
| `Fetching.PaginationAssembly` | app/Console/Commands/ImportExercisesFromApi.php:157-198 | a successfully served series of k pages gives the concatenation of their `data` in page order; it requests page 1 and then each `nextPage` link, and sleeps 2 seconds once per later page and never otherwise |
| `Fetching.ThreePageSeries` | app/Console/Commands/ImportExercisesFromApi.php:157-198 | three linked pages declaring three pages: all records in order, three requests, two pauses of 2 seconds |
| `Upserting.RowOf` | app/Console/Commands/ImportExercisesFromApi.php:83-92 | the written row is classified: its category is the one its own equipment list determines |
| `Upserting.RowOfIsNamed` | app/Console/Commands/ImportExercisesFromApi.php:91 | a written row's category is 1, 2 or 3 and is never shown as "Unknown" |
| `Upserting.Upserted` | app/Console/Commands/ImportExercisesFromApi.php:79-94 | `updateOrCreate` of each record in order; characterized by `UpsertedElsewhere`, `LastOccurrenceWins`, `UpsertedAppend` and `UpsertIdempotent` |
| `Upserting.UpsertedRowsAreClassified` | app/Console/Commands/ImportExercisesFromApi.php:81-93 | after upserting a batch, every id of the batch holds a row whose category is the one its stored equipment list determines, never "Unknown" |
| `Upserting.UpsertKeepsClassified` | app/Console/Commands/ImportExercisesFromApi.php:81-93 | upserting keeps every row of a classified store classified |
| `Upserting.Chunk` | app/Console/Commands/ImportExercisesFromApi.php:73 | concatenating the chunks gives back the list; every chunk holds 1 to 50 items, and all but the last exactly 50 |
| `Upserting.UpsertedElsewhere` | app/Console/Commands/ImportExercisesFromApi.php:81-93 | upserting adds exactly the batch's ids to the keys and leaves every row with another id unchanged |
| `Upserting.LastOccurrenceWins` | app/Console/Commands/ImportExercisesFromApi.php:81-93 | every id of the batch ends with the row of its last occurrence in the batch |
| `Upserting.UpsertedAppend` | app/Console/Commands/ImportExercisesFromApi.php:79-94 | upserting a + b is upserting a and then b |
| `Upserting.UpsertIdempotent` | app/Console/Commands/ImportExercisesFromApi.php:81-93 | saving the same records twice gives the store that saving them once gives |
| `Upserting.Save` | app/Console/Commands/ImportExercisesFromApi.php:77-108 | the transaction consumes a prefix of the database's fault script |
| `Upserting.SaveIsAtomic` | app/Console/Commands/ImportExercisesFromApi.php:77-108 | the transaction commits exactly when none of its writes fails, and then the store is the old store with every record upserted in order; otherwise it rolls back |
| `Walking.IndexOf` | app/Console/Commands/ImportExercisesFromApi.php:54 | `array_search` gives the first index holding the value, and no index exactly when the value is absent |
| `Walking.StartIndex` | app/Console/Commands/ImportExercisesFromApi.php:50-57 | 0 without resume or without a truthy cursor; right after the cursor's muscle when listed; 1 when the cursor is not listed |
| `Walking.MusclesAreDistinct` | app/Console/Commands/ImportExercisesFromApi.php:20-40 | no muscle group is listed twice |
| `Walking.MusclesAreWords` | app/Console/Commands/ImportExercisesFromApi.php:20-40 | every muscle name has at least three letters, so none is PHP-falsy |
| `Walking.ResumeStartsAfterCursor` | app/Console/Commands/ImportExercisesFromApi.php:50-57 | with the cursor on the muscle at index i, a resumed run starts at i + 1 |
| `Walking.ImportMuscleIsAtomic` | app/Console/Commands/ImportExercisesFromApi.php:65-109 | one muscle saves exactly its fetched records; the store gets them all or none; the cursor moves to the muscle only after a non-empty commit; the only first page requested is its own; it aborts exactly when the fetch rethrew or a write of a non-empty batch failed |
| `Walking.ImportMuscleOpensWithItsPage` | app/Console/Commands/ImportExercisesFromApi.php:137-142 | a muscle that lets the walk go on has requested its own first page, as the first request of its step |
| `Walking.ImportMuscle` | app/Console/Commands/ImportExercisesFromApi.php:65-109 | one iteration of the muscle loop: fetch, then save a non-empty result in one transaction and move the cursor; characterized by `ImportMuscleIsAtomic` |
| `Walking.Walk` | app/Console/Commands/ImportExercisesFromApi.php:65-124 | the loop over the remaining muscles, clearing the cursor when all are done; characterized by `WalkCommits`, `WalkRequests`, `WalkCommitsInOrder`, `WalkRequestsInOrder`, `WalkStore`, `WalkTotal` and `WalkCursor` |
| `Walking.Import` | app/Console/Commands/ImportExercisesFromApi.php:45-130 | the whole command: the walk from the start index; characterized by `ImportCommitsWholeBatches`, `ImportVisitsInOrder`, `ImportCursorAndTotal`, `ImportKeepsRowsClassified` and the resume lemmas |
| `Walking.WalkCommits` | app/Console/Commands/ImportExercisesFromApi.php:65-109 | the walk only appends batches, each non-empty and for a muscle it was given |
| `Walking.WalkRequests` | app/Console/Commands/ImportExercisesFromApi.php:65-69 | the walk only adds to the request log, and the only first pages it requests are for muscles it was given |
| `Walking.WalkCommitsInOrder` | app/Console/Commands/ImportExercisesFromApi.php:61-109 | over a list without repeats, the muscles of the committed batches sit at strictly increasing indices of the list |
| `Walking.WalkRequestsInOrder` | app/Console/Commands/ImportExercisesFromApi.php:61-69 | over a list without repeats, a walk that finishes has requested every muscle's first page, the first request of each muscle before that of every later one |
| `Walking.WalkStore` | app/Console/Commands/ImportExercisesFromApi.php:65-109 | the store after the walk is the store before with the committed batches upserted in order; nothing of a rolled-back batch remains |
| `Walking.WalkTotal` | app/Console/Commands/ImportExercisesFromApi.php:101-124 | a walk that finishes clears the cursor and reports the running total plus every committed record, duplicates included |
| `Walking.WalkCursor` | app/Console/Commands/ImportExercisesFromApi.php:100-129 | a walk that stops leaves the cursor on the muscle of its last committed batch, or where it was when it committed none |
| `Walking.ImportCommitsWholeBatches` | app/Console/Commands/ImportExercisesFromApi.php:59-112 | an import commits non-empty batches only for muscles from the start index on, requests only their first pages, and leaves the store as the old store with the committed batches upserted in order |
| `Walking.ImportVisitsInOrder` | app/Console/Commands/ImportExercisesFromApi.php:50-69 | the import processes `muscles[startIndex..]` in order: its committed muscles sit at strictly increasing indices of that list, and an import that finishes has requested the first page of every muscle of it, each muscle's first request before the next one's |
| `Walking.ImportKeepsRowsClassified` | app/Console/Commands/ImportExercisesFromApi.php:59-112 | from a store whose rows are all classified by their own equipment, every row after an import is too, with a category never shown as "Unknown" |
| `Walking.ImportCursorAndTotal` | app/Console/Commands/ImportExercisesFromApi.php:59-129 | exit 0 clears the cursor and reports every committed record; any other exit leaves the cursor on the last committed muscle, or as it was |
| `Walking.ResumeSkipsImportedMuscles` | app/Console/Commands/ImportExercisesFromApi.php:50-69 | resuming with the cursor on the muscle at index i never requests the first page of that muscle or of any muscle before it |
| `Walking.ResumeContinuesAfterLastBatch` | app/Console/Commands/ImportExercisesFromApi.php:50-100 | after a run that stops having committed something, a resumed run starts right after the last committed muscle |
| `Statistics.OccurrencesRemove` | app/Console/Commands/ImportExercisesFromApi.php:233-239 | a count over the stored rows does not depend on the order the rows are visited in |
| `Statistics.OccurrencesOfAbsent` | app/Console/Commands/ImportExercisesFromApi.php:233-251 | a value no row mentions has no occurrences |
| `Statistics.TallyOmitsUnmentioned` | app/Console/Commands/ImportExercisesFromApi.php:233-251 | a count over the whole store has no entry for a value that no row mentions |
| `ImportCommand.ImportExercisesFromApi.Get` | app/Console/Commands/ImportExercisesFromApi.php:142 | a request consumes the next scripted response and logs its target; nothing else changes |
| `ImportCommand.ImportExercisesFromApi.Sleep` | app/Console/Commands/ImportExercisesFromApi.php:148 | a sleep appends its seconds to the log; nothing else changes |
| `ImportCommand.ImportExercisesFromApi.UpdateOrCreate` | app/Console/Commands/ImportExercisesFromApi.php:81-93 | a write throws exactly when the fault script says so, and otherwise puts the record's row under its id |
| `ImportCommand.ImportExercisesFromApi.WaitBeforeRetry` | app/Console/Commands/ImportExercisesFromApi.php:145-148 | the sleep before retry n is logged as that backoff |
| `ImportCommand.ImportExercisesFromApi.RequestFirstPage` | app/Console/Commands/ImportExercisesFromApi.php:140-170 | one pass of the outer loop up to the paging reacts to the response as `React` says, and logs its request and sleep |
| `ImportCommand.ImportExercisesFromApi.RequestNextPage` | app/Console/Commands/ImportExercisesFromApi.php:171-194 | one pass of the inner loop reacts to the response as `React` says, and logs its request and sleep |
| `ImportCommand.ImportExercisesFromApi.FetchExercisesForMuscle` | app/Console/Commands/ImportExercisesFromApi.php:132-212 | the method returns what `FetchMuscle` gives on the response script; the requests, the sleeps and the consumed responses are exactly that run's; store, cursor and fault script are untouched |
| `ImportCommand.ImportExercisesFromApi.FetchLaterPages` | app/Console/Commands/ImportExercisesFromApi.php:164-198 | the inner loop follows `Fetch` from the paging phase, and hands back either the fetch's result or a restart at page 1 with the shared retry count |
| `ImportCommand.ImportExercisesFromApi.SaveMuscle` | app/Console/Commands/ImportExercisesFromApi.php:73-108 | the transaction ends as `Save` says: committed, with the upserted store and the cursor on the muscle; or rolled back, with the store and cursor as before |
| `ImportCommand.ImportExercisesFromApi.SaveBatches` | app/Console/Commands/ImportExercisesFromApi.php:79-96 | writing the chunks in order is `Save` of their concatenation, up to the first write that throws |
| `ImportCommand.ImportExercisesFromApi.SaveBatch` | app/Console/Commands/ImportExercisesFromApi.php:80-94 | writing one chunk is the first part of `Save` of the chunk and the rest of the transaction |
| `ImportCommand.ImportExercisesFromApi.ProcessMuscle` | app/Console/Commands/ImportExercisesFromApi.php:65-111 | one muscle changes the state exactly as `ImportMuscle` says, and reports how it ended |
| `ImportCommand.ImportExercisesFromApi.Handle` | app/Console/Commands/ImportExercisesFromApi.php:45-130 | the command's exit and final state are those of `Import`: exit 0 with the total, exit 1 on an exception |
| `ImportCommand.ImportExercisesFromApi.ImportMuscles` | app/Console/Commands/ImportExercisesFromApi.php:59-124 | the loop over the remaining muscles ends as `Walk` says, and clears the cursor once all are done |
| `ImportCommand.ImportExercisesFromApi.ShowStatistics` | app/Console/Commands/ImportExercisesFromApi.php:214-256 | each of the three dictionaries maps exactly the values occurring over all stored rows, each to its number of occurrences |
| `ImportCommand.ImportExercisesFromApi.CountValues` | app/Console/Commands/ImportExercisesFromApi.php:233-251 | the counting loop maps each value to its number of occurrences in the column over all stored rows, holds no zero entries, and has no entry for a value no row mentions |
| `ImportCommand.ImportExercisesFromApi.Tally` | app/Console/Commands/ImportExercisesFromApi.php:236-238 | after the inner loop, each entry has grown by the value's number of occurrences in the list |

## Left out

- HTTP, JSON decoding and the base URL are not modelled. A response is a status with an already decoded page, or an exception. A body missing the `data` or `metadata` key, or one of `metadata`'s `totalExercises`, `totalPages` or `nextPage` keys, raises an `ErrorException` in PHP; that case is folded into the exception case. The `Page` type cannot represent a `data` that is JSON `null`, on any page. On a later page, `array_merge` (app/Console/Commands/ImportExercisesFromApi.php:188) would throw a `TypeError`. On page 1 the same happens at the next page's `array_merge`, or, when there is no later page, at `return $muscleExercises;` (:198) under the `: array` return type. Neither `catch (\Exception)` (:200, :126) handles a `TypeError`, so the command would end without the retry or the exit code 1 that the model's exception case gives.
- Real sleeping and wall-clock time are not modelled. The seconds of each `sleep` are logged instead.
- The cache is not modelled: its one-day expiry is left out, and the cursor is a plain optional value.
- Progress bars and the `info`, `warn` and `error` output are left out, as output only.
- What the command does after the response script runs out is not modelled. The script's finite length is what bounds the uncapped retries on later pages.
- The SQL `groupBy` over the category column in `showStatistics` (app/Console/Commands/ImportExercisesFromApi.php:217-220) becomes a count by the category's display name. Two unknown category values would be two groups in SQL but one "Unknown" entry here; every category the import writes is 1, 2 or 3 (`RowOfIsNamed`, `ImportKeepsRowsClassified`).
- `arsort` and the printing order are left out, because they are library behaviour with an unspecified order for ties.
- An exception thrown by `showStatistics` would turn the exit code into 1. It is not modelled; the counting methods cannot fail.
- `Upserting.Save`: the only database call in the transaction that can fail is the `updateOrCreate` write (app/Console/Commands/ImportExercisesFromApi.php:81-93). A failure of `DB::beginTransaction` (:77) or of `DB::commit` (:97) is assumed away.
- `ImportCommand.ImportExercisesFromApi.SaveMuscle`: `Cache::put` (app/Console/Commands/ImportExercisesFromApi.php:100) is assumed never to throw. If it threw after the commit, the catch at :105-107 would roll back a transaction that is already committed, which does nothing, and rethrow. The run would then end with exit code 1, the muscle's rows stored and the cursor still on the previous muscle. The model cannot represent that outcome.
- `Walking.ImportCursorAndTotal`: its "any other exit leaves the cursor on the last committed muscle" holds under the assumption that `Cache::put` does not throw. It also assumes that `Cache::forget` (:119) does not throw: if it did, a run that committed everything would end with exit code 1 and the cursor not cleared. `Cache::get` (:52), outside any `try`, is likewise assumed not to throw.
- The `--limit` option is declared but never read, so there is nothing to model.
- `--retry-delay` is a natural number of seconds. Parsing the option string is left out.
- The Eloquent query scopes are thin wrappers over the query builder and are left out.
- The seeder and the tests are fixtures and are left out. From the migration only the unique `exercise_id` key is kept: it is the store's map key.
- Auto-increment ids and timestamps are not modelled.
- `strtolower` folds only ASCII letters, as in PHP 8.2 and later. Strings are sequences of characters, not bytes.
