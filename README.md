# Trivia question store — a verified model

This project models the core of a small trivia-question store in Dafny. The store keeps
questions, answers, categories, types and difficulties in a relational database. It fills
that database from a remote trivia service. The model has four parts:

- **The question store logic.**
  - `findOrCreateAnswer` finds an answer row by its text or creates it. When the create fails,
    it looks the text up again.
  - `createQuestion` first runs its duplicate check. It compares the scalar fields one by one
    and the incorrect answers as sorted lists.
  - `createQuestion` then looks the names up in reference-table snapshots. These are taken
    once, when the module loads.
  - `createQuestion` then resolves the answers and inserts the question.
  - Two maintenance passes trim whitespace in place. The answer pass deletes a row whose
    update fails. The question pass stops at the first failure.
  - `deleteAllQuestions` empties the question table and the answer table.
- **The client of the remote trivia service.**
  - It holds two pieces of state: the time of the last rate-limited call and the session
    token.
  - A rate-limited call first sleeps until 5000 ms have passed since that time.
  - A validated call fails on any response code other than 0, with the code and its
    description.
  - `get_questions` trims every fetched question.
- **The response-code table.** It maps the codes 0 to 5 to their documented meanings.
- **The one-shot seeder.**
  - It upserts the remote categories.
  - For each fetched question, it upserts the question's type and difficulty.
  - It skips the question when no category has its name.
  - Otherwise it creates fresh answer rows and a question linking them.
  - The first error ends the run, and the connection is always closed.

The database is a set of in-memory tables: a map from row id to row, plus the id the next
insert will receive (`Tables.Table`). Each unique column is a constraint that a write
checks. `Tables.Database` is a class whose fields are the five tables. Its methods are the
single writes the code issues. The question service and the API client are classes too.
The maintenance loops, the answer loops and the seeder loops are methods with loop
invariants. Each such method is proved against a ghost step function folded over its input,
for example `TrimPass.TrimmedAnswers`, `QuestionService.ResolveOver` and
`Seed.SeedQuestionsOver`. Lemmas then prove what the fold means.

Facts about the modelled behaviour:

- **Rate-limit timestamp.** A rate-limited call that fails validation leaves the timestamp
  unchanged, so the next rate-limited call is spaced only from the last call that succeeded.
- **Duplicate check.** A duplicate question that differs from the stored one falls through to
  the insert path. There the unique question text makes the insert fail. So an existing
  question is never updated in place, and its answers may still have been created.
- **Seeder answers.** The seeder creates answers with a plain create, not find-or-create. A
  question whose answer text is already stored, or that repeats a text within itself, ends
  the run (`Seed.SeedQuestionFails`).

## Model

| member | source | states |
|---|---|---|
| Helpers.Describe | 2025-11-10-API-Fragen/lib/helpers.ts:12-25 | a code has a description exactly when it is one of 0..5, and the description is the table's text for that code |
| Helpers.ApiResultCodes | 2025-11-10-API-Fragen/lib/helpers.ts:12-25 | the table has an entry for exactly the codes 0, 1, 2, 3, 4 and 5 |
| Helpers.ResultMeaningsDistinct | 2025-11-10-API-Fragen/lib/helpers.ts:12-25 | no two codes of the table share a meaning |
| Helpers.UnknownCodeUndescribed | 2025-11-10-API-Fragen/lib/helpers.ts:12-25 | a code outside 0..5 has no entry, so its lookup is undefined |
| Helpers.OnlyZeroMeansSuccess | 2025-11-10-API-Fragen/lib/helpers.ts:13 | code 0 is the only code that means success |
| Helpers.TokenEmptyAndRateLimitCodes | 2025-11-10-API-Fragen/lib/helpers.ts:20-24 | code 4 means the token is exhausted, code 5 means the rate limit |
| Text.Trim | 2025-11-10-API-Fragen/lib/questionservice.ts:71 | the result has no whitespace at either end and is no longer than the input |
| Text.TrimCutsOnlySpace | 2025-11-10-API-Fragen/lib/questionservice.ts:71 | trimming keeps one contiguous slice of the input and drops only whitespace around it |
| Text.TrimUnchangedIff | 2025-11-10-API-Fragen/lib/questionservice.ts:71-72 | a text equals its trim exactly when it has no whitespace at either end |
| Text.TrimIdempotent | 2025-11-10-API-Fragen/lib/questionservice.ts:71 | trimming twice is trimming once |
| Text.TrimShortens | 2025-11-10-API-Fragen/lib/questionservice.ts:71-72 | the trim is strictly shorter exactly when the text is untrimmed |
| Sorting.StrLeTotal | 2025-11-10-API-Fragen/lib/questionservice.ts:153-154 | any two strings are comparable in the sort order |
| Sorting.StrLeAntisymmetric | 2025-11-10-API-Fragen/lib/questionservice.ts:153-154 | strings that are each at most the other are equal |
| Sorting.StrLeTransitive | 2025-11-10-API-Fragen/lib/questionservice.ts:153-154 | the sort order is transitive |
| Sorting.SortStrings | 2025-11-10-API-Fragen/lib/questionservice.ts:153-154 | `toSorted()` returns a sorted permutation of its input |
| Sorting.SortedPermutationsEqual | 2025-11-10-API-Fragen/lib/questionservice.ts:153-162 | two sorted lists with the same elements are equal |
| Sorting.SortedEqualIffPermutation | 2025-11-10-API-Fragen/lib/questionservice.ts:153-162 | two lists sort to the same list exactly when they hold the same elements with the same multiplicities |
| Tables.Rows | 2025-11-10-API-Fragen/lib/questionservice.ts:68 | the listing `findMany()` returns holds every row of the table exactly once with its stored fields and nothing else; the model fixes its order to ascending id |
| Tables.FirstWithKey | 2025-11-10-API-Fragen/lib/questionservice.ts:178 | `filter(...)[0]` yields the first listed row with the key, or nothing exactly when no row has it |
| Tables.FindUnique | 2025-11-10-API-Fragen/lib/questionservice.ts:38-40 | on a unique column, a lookup finds the one row holding the key, and finds nothing exactly when no row holds it |
| Tables.Database.constructor | 2025-11-10-API-Fragen/lib/questionservice.ts:4 | the client opens connected to tables that hold the given rows and meet every unique constraint |
| Tables.Database.CreateAnswer | 2025-11-10-API-Fragen/lib/questionservice.ts:45-47 | an answer create is refused when the text is taken; otherwise it adds one row at the next id |
| Tables.Database.UpdateAnswer | 2025-11-10-API-Fragen/lib/questionservice.ts:75-78 | an answer update fails exactly when another row holds the new text; otherwise only that row changes |
| Tables.Database.DeleteAnswer | 2025-11-10-API-Fragen/lib/questionservice.ts:81-83 | deleting removes exactly that row |
| Tables.Database.DeleteAllAnswers | 2025-11-10-API-Fragen/lib/questionservice.ts:228 | the answer table is left empty |
| Tables.Database.CreateQuestion | 2025-11-10-API-Fragen/lib/questionservice.ts:203-213 | a question insert succeeds exactly when its text is new and every row it links exists |
| Tables.Database.UpdateQuestionText | 2025-11-10-API-Fragen/lib/questionservice.ts:270-273 | a question text update fails exactly when another row holds the new text; otherwise only that row's text changes |
| Tables.Database.DeleteAllQuestions | 2025-11-10-API-Fragen/lib/questionservice.ts:226 | the question table is left empty |
| Tables.Database.UpsertCategory | 2025-11-10-API-Fragen/seed.ts:29-36 | an existing row with the remote id is returned untouched; otherwise a row with the remote name and id is added, unless another row holds the name |
| Tables.Database.UpsertType | 2025-11-10-API-Fragen/seed.ts:49-53 | the returned row holds the type name; a row is added only when none held the name |
| Tables.Database.UpsertDifficulty | 2025-11-10-API-Fragen/seed.ts:56-60 | the returned row holds the level; a row is added only when none held the level |
| Tables.Database.Disconnect | 2025-11-10-API-Fragen/seed.ts:101 | the connection is closed and no table changes |
| TrimPass.CountUntrimmed | 2025-11-10-API-Fragen/lib/questionservice.ts:69-73 | the count of listed rows whose text differs from its trim never exceeds the number of rows |
| TrimPass.CountUntrimmedZeroIff | 2025-11-10-API-Fragen/lib/questionservice.ts:69-73 | the count is zero exactly when every listed row is already trimmed |
| TrimPass.TrimmedAnswersMeaning | 2025-11-10-API-Fragen/lib/questionservice.ts:67-88 | after the answer pass, texts stay unique, every surviving row holds the trim of its old text, already-trimmed rows are untouched, and every old text's trim is held by some row |
| TrimPass.TrimAnswersOverTrimmed | 2025-11-10-API-Fragen/lib/questionservice.ts:70-72 | over rows that are all trimmed, the pass changes nothing and counts zero |
| TrimPass.TrimAnswersIdempotent | 2025-11-10-API-Fragen/lib/questionservice.ts:67-88 | a second answer pass changes nothing and counts zero |
| TrimPass.WithTrimmedText | 2025-11-10-API-Fragen/lib/questionservice.ts:267-273 | the rewritten question has a trimmed text and differs from the old one in its text alone |
| TrimPass.TrimmedQuestionsMeaning | 2025-11-10-API-Fragen/lib/questionservice.ts:263-277 | the question pass keeps every row id and unique texts, changes a row only by trimming its text, and trims every row when no update failed |
| TrimPass.TrimQuestionsOverFails | 2025-11-10-API-Fragen/lib/questionservice.ts:270-273 | the question pass fails only when two distinct rows have the same trimmed text |
| TrimPass.TrimmedQuestionsFailIff | 2025-11-10-API-Fragen/lib/questionservice.ts:263-277 | the question pass over all rows fails exactly when two distinct rows have the same trimmed text |
| QuestionService.LinkedTexts | 2025-11-10-API-Fragen/lib/questionservice.ts:115-119 | every included incorrect answer is the text of a row whose id the question links, and every such row's text is included |
| QuestionService.LinkedTextsCount | 2025-11-10-API-Fragen/lib/questionservice.ts:115-119 | there is one included text per linked row, repeated texts included |
| QuestionService.StoredView | 2025-11-10-API-Fragen/lib/questionservice.ts:108-121 | the stored question with its relations exists exactly when its difficulty, category, type and correct-answer rows exist, and its incorrect answers are exactly the texts of the linked answer rows that exist |
| QuestionService.SameContent | 2025-11-10-API-Fragen/lib/questionservice.ts:124-162 | the duplicate check finds no difference exactly when the four scalar fields match and the incorrect answers are equal as multisets, which includes equal length |
| QuestionService.SameContentIgnoresOrder | 2025-11-10-API-Fragen/lib/questionservice.ts:153-162 | reordering the incoming incorrect answers never changes the outcome of the check |
| QuestionService.FindDiff | 2025-11-10-API-Fragen/lib/questionservice.ts:124-162 | `found_diff` ends up false exactly when the stored and incoming questions have the same content |
| QuestionService.CompareSorted | 2025-11-10-API-Fragen/lib/questionservice.ts:155-162 | the loop over the sorted stored answers finds a difference exactly when some position holds another incoming text or none |
| QuestionService.AnswerTexts | 2025-11-10-API-Fragen/lib/questionservice.ts:194-200 | the looked-up texts are the correct answer first, then the incorrect answers in order |
| QuestionService.FindOrCreateKeeps | 2025-11-10-API-Fragen/lib/questionservice.ts:36-63 | one find-or-create keeps the answer table well formed with unique texts and keeps every row it had |
| QuestionService.ResolveKeeps | 2025-11-10-API-Fragen/lib/questionservice.ts:194-197 | the answer lookups keep every existing row and unique texts, and add rows only for texts looked up |
| QuestionService.ResolveCovers | 2025-11-10-API-Fragen/lib/questionservice.ts:194-197 | without a failure every looked-up text has a row; a failure happens only for a text that had no row and whose insert the store refused |
| QuestionService.QuestionService.constructor | 2025-11-10-API-Fragen/lib/questionservice.ts:7-9 | the difficulty, category and type snapshots are the full tables at start, and nothing later changes them |
| QuestionService.QuestionService.GetCategoryByName | 2025-11-10-API-Fragen/lib/questionservice.ts:340-342 | the result is a snapshot row with that name, and there is none exactly when no snapshot row has the name |
| QuestionService.QuestionService.PriorOf | 2025-11-10-API-Fragen/lib/questionservice.ts:108-122 | the lookup of the incoming text finds nothing exactly when no question has that text; otherwise it yields the stored view of the question that has it, or a missing relation |
| QuestionService.QuestionService.GetCategoryByOpentdbId | 2025-11-10-API-Fragen/lib/questionservice.ts:344-346 | the result is a snapshot row with that remote id, and there is none exactly when no snapshot row has it |
| QuestionService.QuestionService.FindOrCreateAnswer | 2025-11-10-API-Fragen/lib/questionservice.ts:36-63 | the row returned holds the text; an existing row leaves the table unchanged, otherwise exactly one row is added; the call errors only when the insert fails and the re-lookup finds nothing |
| QuestionService.QuestionService.ResolveAnswers | 2025-11-10-API-Fragen/lib/questionservice.ts:194-200 | the lookups run in order with one row per text, element k holding text k; the first failure ends them |
| QuestionService.QuestionService.InsertQuestion | 2025-11-10-API-Fragen/lib/questionservice.ts:193-221 | the question is inserted exactly when the answers resolved, its text is new and its rows exist; it links the correct-answer row and exactly the rows of the incorrect answers |
| QuestionService.QuestionService.CheckExisting | 2025-11-10-API-Fragen/lib/questionservice.ts:108-164 | it returns null exactly when the text is stored with the same content, stops with an error exactly when the stored question has a missing relation, and goes on exactly when the text is absent or stored with other content |
| QuestionService.QuestionService.CreateQuestion | 2025-11-10-API-Fragen/lib/questionservice.ts:104-221 | it returns null exactly when a stored question has the same content, and then writes nothing; past the duplicate check it ends as `LookUpAndInsert` states, so a differing duplicate errors without updating the stored row; the answer table changes exactly by the lookups when they ran; a question is inserted only when no question had the text |
| QuestionService.QuestionService.LookUpAndInsert | 2025-11-10-API-Fragen/lib/questionservice.ts:177-221 | an unknown difficulty, then category, then type name is its error, raised before any answer row is touched; with all three known, a failed answer lookup is its error, and the question is inserted exactly when every lookup succeeded, the text is new and the three snapshot rows still exist |
| QuestionService.QuestionService.DeleteAllQuestions | 2025-11-10-API-Fragen/lib/questionservice.ts:224-229 | the question and answer tables are both left empty, each keeping the id its next insert receives, and the other tables are unchanged |
| QuestionService.QuestionService.TrimAnswerRow | 2025-11-10-API-Fragen/lib/questionservice.ts:71-85 | an untrimmed row is rewritten to its trim, or deleted when another row holds the trim; a trimmed row is untouched |
| QuestionService.QuestionService.TrimWhitespaceFromAllAnswers | 2025-11-10-API-Fragen/lib/questionservice.ts:67-88 | the table ends as the answer pass over the listed rows, and the count is the number of listed rows that were untrimmed |
| QuestionService.QuestionService.TrimQuestionRow | 2025-11-10-API-Fragen/lib/questionservice.ts:267-274 | an untrimmed question's text is rewritten to its trim, and the update fails with a unique violation when another row holds the trim |
| QuestionService.QuestionService.AdvanceQuestionPass | 2025-11-10-API-Fragen/lib/questionservice.ts:266-274 | one iteration advances the question pass and the count by exactly the row at hand, and a refused rewrite fixes the result of the whole pass |
| QuestionService.QuestionService.TrimWhitespaceFromAllQuestions | 2025-11-10-API-Fragen/lib/questionservice.ts:263-277 | the table ends as the question pass; a failed update propagates as an error; otherwise the count is the number of untrimmed rows |
| QuestionService.LinkedIdsAreTheIncomingTexts | 2025-11-10-API-Fragen/lib/questionservice.ts:209-211 | the linked incorrect-answer ids are exactly the rows holding one of the incoming incorrect answers |
| ApiAccess.WaitTime | 2025-11-10-API-Fragen/lib/apiaccess.ts:51-58 | the sleep is positive exactly when less than 5000 ms have passed, and then it ends exactly 5000 ms after the last call |
| ApiAccess.WaitIsLeast | 2025-11-10-API-Fragen/lib/apiaccess.ts:51-58 | no shorter non-negative sleep would respect the spacing |
| ApiAccess.WaitLeavesSpacing | 2025-11-10-API-Fragen/lib/apiaccess.ts:51-58 | after the sleep at least 5000 ms have passed since the last call |
| ApiAccess.FirstCallDoesNotWait | 2025-11-10-API-Fragen/lib/apiaccess.ts:20 | with the initial timestamp, a call at or after start does not sleep |
| ApiAccess.SentAt | 2025-11-10-API-Fragen/lib/apiaccess.ts:29-32 | a call is sent no earlier than it is made; a rate-limited call is sent at least 5000 ms after the last one; any other call is sent at once |
| ApiAccess.ValidateResult | 2025-11-10-API-Fragen/lib/apiaccess.ts:63-67 | a response passes exactly when its code is 0, and the error carries the code and its table description |
| ApiAccess.RejectionDescribedIffKnownCode | 2025-11-10-API-Fragen/lib/apiaccess.ts:63-67 | a rejection has a description exactly when its code is one of 1..5 |
| ApiAccess.TokenEmptyRejection | 2025-11-10-API-Fragen/lib/apiaccess.ts:63-67 | code 4 is rejected with the token-exhausted description |
| ApiAccess.TrimAll | 2025-11-10-API-Fragen/lib/apiaccess.ts:79 | each incorrect answer becomes its own trim, with no whitespace at either end, and their number is kept |
| ApiAccess.TrimQuestion | 2025-11-10-API-Fragen/lib/apiaccess.ts:77-79 | the question and correct answer become their trims and every incorrect answer its own trim, their number kept; category, difficulty and type are untouched |
| ApiAccess.TrimQuestionIdempotent | 2025-11-10-API-Fragen/lib/apiaccess.ts:77-79 | trimming a result again changes nothing |
| ApiAccess.TrimResults | 2025-11-10-API-Fragen/lib/apiaccess.ts:75-81 | the loop keeps the number of results and leaves each one trimmed |
| ApiAccess.TrimmedPayload | 2025-11-10-API-Fragen/lib/apiaccess.ts:74-82 | a response without results is returned unchanged; otherwise only the results change, their number kept and each trimmed |
| ApiAccess.OpenTdbClient.constructor | 2025-11-10-API-Fragen/lib/apiaccess.ts:20 | the timestamp starts 5000 ms before start and the token starts empty |
| ApiAccess.OpenTdbClient.ApiCall | 2025-11-10-API-Fragen/lib/apiaccess.ts:29-46 | the call is sent after the sleep; a validated response with a non-zero code fails; only a rate-limited call that did not fail records its finishing time; the token is unchanged |
| ApiAccess.OpenTdbClient.GetQuestions | 2025-11-10-API-Fragen/lib/apiaccess.ts:71-83 | the call is validated and rate-limited, and its URL carries the amount, the category and the current token; it succeeds exactly on code 0 and then returns the trimmed response |
| ApiAccess.OpenTdbClient.QuestionsInCategory | 2025-11-10-API-Fragen/lib/apiaccess.ts:85-89 | the call is neither validated nor rate-limited; it returns the total count, or fails when the body has no count object |
| ApiAccess.OpenTdbClient.GetCategories | 2025-11-10-API-Fragen/lib/apiaccess.ts:91-95 | the call is neither validated nor rate-limited and returns the category list of the body |
| ApiAccess.OpenTdbClient.ResetToken | 2025-11-10-API-Fragen/lib/apiaccess.ts:97-102 | the call is validated but not rate-limited; on success the token becomes the response's token, and a failed validation leaves it unchanged |
| Seed.CategoriesKeep | 2025-11-10-API-Fragen/seed.ts:28-37 | the category loop keeps both unique constraints, never changes an existing row, and creates rows only with a remote category's name and id |
| Seed.CategoriesCover | 2025-11-10-API-Fragen/seed.ts:28-37 | without a throw every remote id has a row afterwards; the loop throws only at a remote id with no row whose name another row holds |
| Seed.UpsertedMeaning | 2025-11-10-API-Fragen/seed.ts:49-60 | a type or difficulty upsert keeps every row unchanged and adds a row holding the name only when no row held it |
| Seed.AllAnswers | 2025-11-10-API-Fragen/seed.ts:70-79 | answers are created correct answer first, then the incorrect ones in order |
| Seed.AnswersCons | 2025-11-10-API-Fragen/seed.ts:70-79 | creating the correct answer and then the incorrect ones is creating the whole list in order |
| Seed.CreateAnswersFresh | 2025-11-10-API-Fragen/seed.ts:70-79 | without a throw, exactly one fresh row per text is added, in order, at the next ids |
| Seed.CreateAnswersFailIff | 2025-11-10-API-Fragen/seed.ts:70-79 | the creates throw exactly when a text is already stored or repeats an earlier text of the same question |
| Seed.CreateAnswersKeep | 2025-11-10-API-Fragen/seed.ts:70-79 | the creates keep unique answer texts and never change an existing row |
| Seed.SeedQuestionKeeps | 2025-11-10-API-Fragen/seed.ts:46-67 | one question keeps the store valid, never touches categories or existing rows, and always upserts its type and difficulty; a question with an unknown category is skipped without answers or a question row |
| Seed.SeedQuestionFails | 2025-11-10-API-Fragen/seed.ts:63-93 | one question throws exactly when its category is known and an answer text collides or its text is taken |
| Seed.SeedQuestionLinks | 2025-11-10-API-Fragen/seed.ts:69-93 | a stored question gets exactly 1 + n fresh answer rows, correct answer first, and a new row with its text linking its type, difficulty and category rows and exactly the answers just created |
| Seed.SeedQuestionsKeep | 2025-11-10-API-Fragen/seed.ts:46-94 | the question loop keeps the store valid, never touches categories and never changes an existing row |
| Seed.UpsertCategories | 2025-11-10-API-Fragen/seed.ts:28-37 | the loop upserts the categories in order and stops at the first throw |
| Seed.CreateIncorrectAnswers | 2025-11-10-API-Fragen/seed.ts:74-79 | the loop creates the incorrect answers in order and stops at the first throw; without one, the ids collected are the next ids handed out, one per answer |
| Seed.CreateQuestionAnswers | 2025-11-10-API-Fragen/seed.ts:69-79 | the correct answer is created first, then the incorrect ones; without a throw the correct answer's id is the next id and the incorrect answers' ids follow it, all of them rows of the answer table |
| Seed.LinkQuestion | 2025-11-10-API-Fragen/seed.ts:69-93 | the correct answer, then the incorrect answers, then the question linking exactly those rows are created |
| Seed.SeedQuestion | 2025-11-10-API-Fragen/seed.ts:48-93 | the type and difficulty are upserted, the category is looked up by name in the live table, and the question is skipped when none has it |
| Seed.SeedQuestions | 2025-11-10-API-Fragen/seed.ts:46-94 | the questions are seeded in order and the first throw ends the loop |
| Seed.Run | 2025-11-10-API-Fragen/seed.ts:22-101 | the categories are seeded, then the questions unless a category upsert threw; the connection is closed in every case |

## Left out

- Network and JSON. Every response body is an input value. A failing `fetch` or an
  unparsable body is not modelled. That includes the seeder's own two fetches at
  `seed.ts:24-25` and `seed.ts:42-43`, whose lists are inputs to `Seed.Run`.
- Timers and the clock. The clock is an integer argument, a sleep advances it, and the fetch
  takes a given time. The timer helpers in `helpers.ts:3-8` are left out.
- Logging. The console output and the text of the duplicate-check message are left out. The
  `found_diff` flag is modelled. The two trim passes only log `trimmedCount`
  (`questionservice.ts:87` and `:276`); the model returns that count as their result instead.
- Query shapes. Prisma's `include` and `select` shapes are left out. The database-side
  ordering of the included incorrect answers (`questionservice.ts:115-119`) is left out too;
  the check sorts both lists itself.
- Cascades. Referential actions on delete are not modelled. Deleting questions or answers
  leaves the other tables as they are.
- Unique constraints are deterministic: a create or update fails exactly when another row
  holds the key. Only `findOrCreateAnswer`'s insert gets an extra outcome
  (`QuestionService.InsertFate`), so that its re-lookup branch is reachable.
- Whitespace and sort order. Whitespace is a fixed set of eight characters, not
  ECMAScript's full set. `toSorted()` compares characters by code point, not by UTF-16 unit.
- The random shuffle of `questionsDifficultyCategoryAmount`, the thin create and delete
  wrappers for types, difficulties and categories, and the other read-only queries.
- Environment parsing: `API_HUG_MS` is the constant 5000. `API_MAX_AMOUNT` is not used by
  any modelled operation.
- The HTTP server and the unrelated demo seeder.
- The per-category batch loop with token-reset retry is not part of the files modelled. Only
  its building blocks are: `GetQuestions`, `ResetToken` and `QuestionsInCategory`.
- The module-load `reset_token()` call (`apiaccess.ts:105`). `ApiAccess.OpenTdbClient.constructor`
  sets the initial state, and the caller then calls `ResetToken`.
- QuestionService.QuestionService.ResolveAnswers: `Promise.all` runs the lookups
  concurrently and lets the others finish after one fails. The model runs them in order and
  stops at the first failure. So it does not capture rows that the remaining lookups would
  still create.
- ApiAccess.TrimResults: the source rewrites the result objects in place, so the response
  the caller holds is changed too. The model returns the trimmed list as a new value, and
  aliasing is not captured.
- QuestionService.QuestionService.TrimWhitespaceFromAllQuestions: on a failed update the
  source has already counted rows before it throws. The model returns only the error.
- QuestionService.QuestionService.CheckExisting and QuestionService.QuestionService.CreateQuestion:
  the model has an outcome the source does not spell out. A stored question whose
  difficulty, category, type or correct-answer row is gone gives `Prior.Broken`, and
  `createQuestion` stops with `Err(MissingRelation)`. Deletes do not cascade in this model,
  so the answer pass can remove a linked answer row. The source's lookup with its relations
  included would raise the store's own error there instead.
- Tables.Rows, QuestionService.QuestionService.TrimWhitespaceFromAllAnswers and
  QuestionService.QuestionService.TrimWhitespaceFromAllQuestions: `findMany()` is called
  without an ordering, and the store may list rows in any order. The model fixes the listing
  to ascending id, so both passes are promised for that one order. Under another order, a
  different one of two answer rows whose texts trim alike is the one rewritten, and the other
  deleted. For example, with " x" and "x " the model keeps the row listed first. Likewise,
  a different set of question rows is already rewritten when the question pass fails. The
  outcome lemmas are stated for the ascending order only. They cover unique texts, trimmed
  survivors, and failure exactly when two texts trim alike.
- TrimPass.TrimmedAnswersMeaning: the source's update and delete by id on a row that has
  vanished would throw. The model's step leaves such a row alone. This cannot happen within
  one pass, because the pass touches each listed row once.
