# Course registry of an Express tutorial server, in Dafny

The server in `index.js` keeps an ordered, in-memory collection of course
records `{id, name}` that starts with three entries. It serves three routes
over that collection under a version prefix taken from the package version:

- GET `/api/v<ver>/courses` answers with a fixed array.
- GET `/api/v<ver>/courses/:id` answers with the first record that has that id, or with a 404 text.
- POST `/api/v<ver>/courses` validates the body. It then appends `{id: length + 1, name}` and returns that record, or it answers 400.

The model has four modules:

- `Wrappers` (`wrappers.dfy`): `Option` and `Result`.
- `ApiVersion` (`api_version.dfy`): JavaScript's `lastIndexOf` and `substr` as used on line 10, the version prefix, and the two route strings.
- `CourseRegistry` (`course_registry.dfy`):
  - the `Course` record and the seed;
  - the invariant "position `i` holds id `i + 1`";
  - the `find` lookup and the GET outcome;
  - the create schema;
  - the class `CourseStore`, which owns the mutable collection. Its method `Create` appends in place, and `Get` and `List` only read.
- `Handlers` (`handlers.dfy`): the status and payload each outcome is sent with, the GET handler as written with its double send, and a scenario of create-then-get requests.

Lookup is positional under the invariant. `Create` keeps the invariant. So ids stay unique and positive, and `length + 1` is always fresh and is the previous maximum id plus one.

The list route answers `[1, 2, 3]` whatever the collection holds. `CourseStore.List` reads nothing from the collection. `ListMatchesIdsOnlyAtSeedSize` shows that this answer equals the collection's ids exactly when the collection has three records. The source does not say whether the literal is a stub or a defect, so the model keeps it as it is and does not log it as a finding.

## Model

| member | source | states |
|---|---|---|
| `ApiVersion.LastIndexOf` | index.js:10 | the result is -1 exactly when the character is absent; otherwise it is an index holding the character, with no occurrence after it |
| `ApiVersion.Substr` | index.js:10 | the result is never longer than the input and is empty for a length of zero or less; with start 0 it is a prefix; for an in-range start and length it is exactly that slice |
| `ApiVersion.ApiVersion` | index.js:10 | the result is a prefix of the version; it is "" when the version has no dot; otherwise the next character is a dot and no dot follows it, so the result is everything before the last dot |
| `ApiVersion.ApiVersionDropsLastComponent` | index.js:10 | for a version with a dot, the prefix has exactly one dot fewer, so one dot-separated component fewer |
| `ApiVersion.ApiVersionExamples` | index.js:10 | "1.2.3" gives "1.2" and "1" gives "" |
| `ApiVersion.CoursesRouteDeterminedByPrefix` | index.js:31 | two versions give the same collection route exactly when their version prefixes are equal, so versions differing only in the last component share the route |
| `ApiVersion.RoutesNeverCollide` | index.js:44 | for any two versions, the collection route never equals an item route |
| `CourseRegistry.SeedMatchesPositions` | index.js:16-18 | the seed holds three records and position `i` holds id `i + 1` |
| `CourseRegistry.IdsUnique` | index.js:16-18 | under the invariant, no two positions share an id and every id is positive |
| `CourseRegistry.NextIdIsMaxPlusOne` | index.js:61 | under the invariant the largest id equals the length (0 for an empty collection), so `length + 1` is the previous maximum plus one |
| `CourseRegistry.FirstIndex` | index.js:45 | the result is absent exactly when no record has the id; otherwise it points at a record with the id, and no earlier record has it |
| `CourseRegistry.Find` | index.js:45 | the result is absent exactly when no record has the id; a found record is in the collection, has the requested id, and is the record at the first position carrying it |
| `CourseRegistry.FindByPosition` | index.js:45 | under the invariant, looking up id `n` gives the record at `n - 1` when `1 <= n <= length`, and nothing otherwise |
| `CourseRegistry.GetCourse` | index.js:44-46 | the outcome is a record or the 404 with the text "404 Course Not Found. "; it is a record exactly when the parsed id is a number that some record carries; a returned record is in the collection and has the requested id |
| `CourseRegistry.Validate` | index.js:51-58 | a body passes exactly when `name` is present, is a string and has at least 3 characters, and the validated name is that string; each failure names its rule: a missing name, a non-string name, or a string shorter than 3 |
| `CourseRegistry.AppendKeepsPositions` | index.js:60-64 | appending `{length + 1, name}` keeps the invariant, and no earlier record carries the new id |
| `CourseRegistry.LookupAfterAppend` | index.js:44-64 | after the append, the new id finds the new record and every other id finds what it found before |
| `CourseRegistry.ListMatchesIdsOnlyAtSeedSize` | index.js:31-33 | under the invariant, the fixed list response equals the ids of the collection exactly when the collection holds three records |
| `CourseRegistry.CourseStore.constructor` | index.js:16-18 | the store starts with the seed and satisfies the invariant |
| `CourseRegistry.CourseStore.Get` | index.js:44-46 | modifies nothing and gives the GET outcome for any store; when the invariant holds it returns the record at `id - 1` for `1 <= id <= length` and the 404 text otherwise |
| `CourseRegistry.CourseStore.List` | index.js:31-33 | modifies nothing and returns `[1, 2, 3]`, independent of the store |
| `CourseRegistry.CourseStore.Create` | index.js:50-66 | on a failed validation: returns the 400 outcome with the failed rule and leaves the collection unchanged; on a valid body: appends exactly `{old length + 1, name}` after the unchanged earlier records and returns that record; keeps the invariant |
| `Handlers.ReplyOf` | index.js:46-65 | status 200 exactly for a record, 404 exactly for not-found, 400 exactly for an invalid body; the payload is the record, the not-found text, or the failed validation rule respectively |
| `Handlers.GetHandlerAsWritten` | index.js:44-48 | the written handler sends once or twice; its first reply is the corrected outcome's reply; a second reply is a 404 with no record |
| `Handlers.MissSendsTwice` | index.js:46-47 | the written handler sends twice exactly when the lookup misses |
| `Handlers.MissSendsTwiceOnSeed` | index.js:46-47 | GET of id 4 against the seed sends the 404 text and then a second reply with no record |
| `Handlers.CorrectedIsFirstSend` | index.js:46-47 | the corrected single outcome is the first reply of the written handler; the written handler sends once exactly when the record is found |
| `Handlers.CreateThenGet` | index.js:44-66 | scenario on a freshly seeded store: POST of "course4" creates `{4, "course4"}`; GET of 4 returns the same record; GET of 5 answers 404 with the fixed text |

## Findings

| source | as written | input that shows it | evidently intended | confidence | as-written member | corrected member |
|---|---|---|---|---|---|---|
| index.js:46-47 | the miss branch sends the 404 text but does not return, so control falls through to a second `send` of the absent record | GET `/api/v<ver>/courses/4` against the initial collection | return after the 404, so that there is exactly one reply | high; not executed | `Handlers.MissSendsTwiceOnSeed` | `Handlers.CorrectedIsFirstSend` |

The rest of the model uses the corrected outcome `CourseRegistry.GetCourse`.

## Left out

- Express wiring is not modelled: the app object, JSON body parsing, route dispatch, the `/` greeting route and `listen`. Outcomes are the `Response` and `Reply` datatypes instead.
- The `/api/posts/:year/:month` route only echoes framework-parsed parameters as JSON text, so it is not modelled.
- `parseInt` on the path parameter is not modelled. The id arrives as `PathId`: an integer, or `NaN`, which matches no record.
- Reading `package.json`, `process.env.port` and the console log are I/O. The version string is a parameter of `ApiVersion.ApiVersion`.
- `CourseRegistry.Validate`: models only the stated rule (required, string, at least 3 characters). Joi's other defaults are not modelled. In the source, a body with keys other than `name`, or a body that is not an object, is rejected; the model accepts or cannot express it. For the empty string Joi reports the "not allowed to be empty" rule where the model reports `NameTooShort`. The wording of Joi's messages is not modelled; the 400 payload carries only the failed rule.
- `CourseRegistry.Validate`: lengths are counted in Dafny characters (Unicode scalar values), while JavaScript counts UTF-16 code units. The two differ only for characters outside the Basic Multilingual Plane.
- Update and delete routes are not part of this `index.js`, so they are not modelled.
- Concurrency is not modelled: requests are handled one at a time.
