# Waitlist registrar

A model of the waitlist registration endpoint `POST /api/waitlist` of the
backend in `index.js`. The handler reads the request body's `email`, rejects
it with 400 unless it is present, non-empty and matches
`^[^\s@]+@[^\s@]+\.[^\s@]+$`, answers 409 when the waitlist collection
already holds that email, and otherwise saves a new document
`{ email, date: Date.now() }` and answers 201; an exception from either store
call is answered 500.

- `wrappers.dfy` — module `Wrappers`: `Option`, used for the possibly absent
  `email` field and for the lookup result.
- `email_shape.dfy` — module `EmailShape`: the shape check. `MatchesPattern`
  follows the regular expression (an `@` and a later `.` cut the string into
  three runs of characters that are neither whitespace nor `@`);
  `SplitsAsPattern` states the same as the existence of strings
  `local`, `x`, `y` with `s == local + "@" + x + "." + y`; `WellFormed` is the
  characterisation (no whitespace, exactly one `@` with a non-empty local
  part, a dot strictly inside the domain). `Accepts` is the handler's test on
  the optional field.
- `waitlist.dfy` — module `Waitlist`: the collection as `seq<Entry>` in
  insertion order, the lookup `FindOne`, the pure specification `Step` of one
  request, `Run` for a history of requests, the class `Store` whose method
  `Register` is the handler, proved equal to `Step`, and lemmas about `Step`.
  Status codes are the datatype `Status`, mapped to 201/400/409/500 by `Code`.

Inputs the handler takes from its environment become parameters: the clock
reading `Date.now` (line 39) is `now: int` (milliseconds), and whether
`findOne` (line 55) or `save` (line 62) throws is `fault: StoreFault`.

Whitespace `\s` is the predicate `IsSpace`, written out as ECMAScript's
WhiteSpace and LineTerminator code points. The general validator lemmas
(`PatternAsSplit`, `AtomSlice`, `PatternIffWellFormed`, `Accepts`,
`MissingOrEmptyRejected`) and everything in `waitlist.dfy` except
`RegisterScenario` use only the lemma `SpaceExcludesAtAndDot` (neither `@`
nor `.` is whitespace), so they hold for any whitespace set with that
property. The concrete cases `ExamplesAccepted` and `ExamplesRejected`, and
`RegisterScenario`, which is proved from them, also rely on the code-point
list itself (that letters are not whitespace, that the space character is).

The pattern at `index.js:49` requires, beyond `local@domain`, a dot strictly
inside the domain (at least one character on each side of it), and that is
what is modelled.

## Model

| member | source | states |
|---|---|---|
| `EmailShape.IsSpace` | index.js:49 | the class `\s` as ECMAScript's WhiteSpace and LineTerminator code points; no contract of its own, the fact used about it is `SpaceExcludesAtAndDot` |
| `EmailShape.SpaceExcludesAtAndDot` | index.js:49 | `@` and `.` are not in the whitespace class, the one fact about `\s` the general validator lemmas use |
| `EmailShape.MatchesPattern` | index.js:49 | the anchored regex test; no contract of its own, specified by `PatternAsSplit` (the regex's three-run structure) and `PatternIffWellFormed` (the characterisation) |
| `EmailShape.PatternAsSplit` | index.js:49 | the positional match is exactly the regex's structure: some `local`, `x`, `y`, each a non-empty run free of `@` and whitespace, with `s == local + "@" + x + "." + y` |
| `EmailShape.AtomSlice` | index.js:49 | a slice is a `[^\s@]+` run exactly when it is non-empty and each of its positions holds a character outside `\s` and `@` |
| `EmailShape.PatternIffWellFormed` | index.js:49 | the pattern accepts exactly the strings with no whitespace, exactly one `@`, a non-empty local part and a domain holding a `.` that is neither its first nor last character (both directions) |
| `EmailShape.Accepts` | index.js:49 | the request passes the check iff the `email` field is present and its value is well formed in the sense above |
| `EmailShape.MissingOrEmptyRejected` | index.js:49-50 | a missing field and the empty string are rejected |
| `EmailShape.ExamplesAccepted` | index.js:49 | `a@b.c` and `a.b@c.d.e` (dots in the local part and several in the domain) are accepted |
| `EmailShape.ExamplesRejected` | index.js:49 | `not-an-email`, `a@@b.c`, `a@b.`, `@b.c` and `a b@c.d` are rejected |
| `Waitlist.FindOne` | index.js:55 | the lookup finds an entry iff the email is among the stored emails, and what it finds is a stored entry with exactly that email |
| `Waitlist.Step` | index.js:45-68 | one request to the handler as a function of the prior store, the `email` field, the clock and the store's behaviour; no contract of its own, specified by `StepOutcomes`, `InvalidIgnoresStore`, `StepOnlyAppends`, `StepPreservesInvariant` and `RegisterTwice` |
| `Waitlist.Code` | index.js:50-66 | the status literals 201, 400, 409 and 500 of the four replies; a plain mapping with no contract |
| `Waitlist.StepOutcomes` | index.js:45-68 | 400 iff the email fails the check; 409 iff it passes, the lookup succeeds and the email is stored; 201 iff it passes, the store does not fail and the email is new; 500 iff it passes and the lookup fails, or the save of a new email fails; the store gains `(email, now)` on 201 and is unchanged otherwise |
| `Waitlist.InvalidIgnoresStore` | index.js:49-51 | a rejected email gives 400 with the store unchanged whatever the store holds, the clock reads or the store would do |
| `Waitlist.StepOnlyAppends` | index.js:61-63 | earlier entries are never changed or removed, and the store grows by exactly one entry iff the answer is 201 |
| `Waitlist.StepPreservesInvariant` | index.js:49-63 | one request keeps the stored emails pairwise distinct and all well formed |
| `Waitlist.RegisterTwice` | index.js:55-63 | a new valid email registered twice in a row gives 201 then 409 (when the second lookup does not throw) and the store grows only once, by `(email, now1)` |
| `Waitlist.Run` | index.js:45-68 | the store after a history of requests answered one at a time; no contract of its own, specified by `RunPreservesInvariant` |
| `Waitlist.RunPreservesInvariant` | index.js:45-68 | every history of requests from a store with distinct, well-formed emails (such as the empty one) keeps both properties |
| `Waitlist.EmailsAppend` | index.js:61-62 | appending an entry adds exactly its email to the set of stored emails |
| `Waitlist.UniqueAppend` | index.js:55-62 | appending keeps the emails unique exactly when the store had unique emails and did not hold the new one |
| `Waitlist.UniqueIffDistinctCount` | index.js:38 | the uniqueness invariant holds iff the store has as many distinct emails as entries, and never more distinct emails than entries |
| `Waitlist.Store.constructor` | index.js:37-42 | the collection starts with whatever documents it already holds (possibly none, possibly duplicates from a time without the unique index) |
| `Waitlist.Store.Register` | index.js:45-68 | the handler's status and the new contents of the collection are those of `Step` on the old contents; distinct, well-formed emails stay so |
| `Waitlist.RegisterScenario` | index.js:45-68 | on an empty store, `a@b.c` twice gives 201 then 409, `not-an-email` gives 400, and one entry remains |

## Left out

- Environment loading, the port, and the fail-fast exits when the connection string is missing or the connection fails (`index.js:1-19`, `29-34`): process configuration and I/O.
- CORS and JSON body parsing (`index.js:21-26`): framework middleware; a request body is modelled only by its `email` field, present or absent.
- The database connection, query execution and `app.listen` (`index.js:29-34`, `42`, `71-73`): replaced by the in-memory `Store`.
- Concurrency: the check-then-insert race between simultaneous requests and the database-side unique index that would reject the second insert (`index.js:38`, `55-62`); requests are answered one at a time, so the application-level lookup alone keeps the emails unique.
- Store failures are a parameter, not behaviour: a throwing `findOne` or `save` gives 500 and leaves the store unchanged; what a real partially failed `save` leaves behind is decided by the database.
- Logging and the response message strings (`index.js:50`, `57`, `63`, `65-66`).
- A non-string `email` (number, object) and JavaScript's coercion of it inside `RegExp.test`; string values are sequences of Unicode scalar values, so lone UTF-16 surrogates are not represented.
- Which document `findOne` returns when several match: the model returns the earliest, and its contract promises only some entry with that email.
- Signature verification: `index.js` has no such endpoint.
