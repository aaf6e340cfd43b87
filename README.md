# moto-api membership and invite workflow, in Dafny

This project models the request handlers of the moto-api backend that decide who
belongs to a trip or a community. It covers:

- joining directly, or through a join request that the creator accepts;
- leaving;
- generating invite codes;
- the creation routes that make the creator a member;
- the detail and overview reads that report membership flags and head counts;
- the older trip routes still mounted under `/trip`;
- the signup validation and the register and login routes.

The database is a value of type `Store.Tables`:

- one sequence of rows per table, in storage order;
- a single serial counter `nextId` that hands out row ids to every table (the database keeps one sequence per table; see Left out).

The class `Store.Db` holds the same tables as fields and has one method per ORM
statement. Each method states the whole new store.

Each source file has two modules:

- a `…Workflow` module (or `LegacyTrips`, or `Auth`). Each handler there is a
  function from the old store and the request to an `Outcome`: the response (a
  status and a body) plus the new store. The function's `ensures` states in what
  order the guards run, which status each one answers, and which rows are
  written. Lemmas relate several calls.
- a `…Handlers` module (or `LegacyTripRoutes`, or `AuthRoutes`). Each handler
  there is an imperative method on a `Db`, proved to answer and to leave the
  store exactly as the function describes. The overview handlers keep the
  source's in-place loop over an array.

Some inputs are supplied rather than computed:

- `Math.random` is a supplied stream of hex digits, `rand: nat -> HexDigit`.
  Attempt `i` of the invite generator draws digits `12i … 12i+11`.
- Whether an invite lookup throws is a supplied oracle, `faults: nat -> bool`.
- The current time `now` is a parameter.
- The user id and session id that lucia would generate are parameters.
- zod's `email()` test, lower-casing, `Bun.password.hash` and
  `Bun.password.verify` are uninterpreted function parameters.

The module structure is:

- `base.dfy`: `Option`, `Result`, rows and responses, and the table queries:
  `findFirst` (FindFirst), `where` (Filter), `count()` (Count), and
  `offset`/`limit` (Page).
- `store.dfy`: the records, the `Tables` value, the `Db` class and the row
  predicates used in `where` clauses.
- `shared.dfy`: `src/lib/shared.ts`.
- `trip_workflow.dfy` and `trip_handlers.dfy`: `src/routes/trip/handlers.ts`.
- `community_workflow.dfy` and `community_handlers.dfy`: `src/routes/community/handlers.ts`.
- `legacy_trips.dfy` and `legacy_trip_routes.dfy`: `src/routes/trip.ts`.
  `src/index.ts` imports `./routes/trip`, which resolves to this file rather
  than to the directory `trip/`. It imports `./routes/community` the same
  way, which resolves to `src/routes/community.ts`, so neither
  `trip/handlers.ts` nor `community/handlers.ts` is mounted by `src/index.ts`;
  both handler files are modelled as written all the same.
- `auth.dfy` and `auth_routes.dfy`: `src/routes/auth.ts`.

The code behaves as follows where a reader might expect otherwise, and the
model does what the code does:

- The invite generator does not retry after a store error. The `catch` is
  outside the loop, so the first failed lookup ends the call.
- Both join handlers check existing membership (and, for trips, existing
  requests) before they check that the trip or community exists.
- Community join requests are never deduplicated. Trip join requests are, and
  the trip check counts a request of any status, including a rejected one.
- Neither `acceptJoinRequest` checks existing membership or the request's
  status before inserting, so accepting is not idempotent.
- Both `acceptJoinRequest` handlers answer a non-creator with 401, not 403.

## Model

| member | source | states |
|---|---|---|
| Shared.AtFrom | src/lib/shared.ts:6-8 | the scan from position `j` is true exactly when some `m >= j` holds an '@' with a non-line-terminator on each side |
| Shared.IsValidEmailMatchesRegex | src/lib/shared.ts:6-8 | `isValidEmail` agrees, in both directions, with the meaning of the unanchored JavaScript pattern `.+@.+`, where `.` excludes `\n`, `\r`, U+2028 and U+2029 |
| Shared.HexRoundTrip | src/lib/shared.ts:11 | `toString(16)` of a digit 0..15 is a character of `0-9a-f` that reads back as that digit |
| Shared.GenRanHex | src/lib/shared.ts:9-12 | the string has exactly `size` characters, each in `0-9a-f`, and the k-th encodes the k-th random digit |
| Shared.GenRanHexInjective | src/lib/shared.ts:9-12 | two draws giving the same string were the same digits, so no randomness is lost |
| Shared.Candidate | src/lib/shared.ts:20 | every candidate code is 12 hex characters |
| Shared.Attempt | src/lib/shared.ts:14-36 | at most `maxAttempts` lookups; a returned code came from a lookup that did not throw and found no invite with it; every earlier attempt collided; exhaustion makes exactly `maxAttempts` lookups, or none when `maxAttempts <= 0`; a store error ends the loop at the attempt that threw |
| Shared.GenerateUniqueInviteCode | src/lib/shared.ts:14-36 | the loop returns what `Attempt` describes: `"trip"` consults only the trip invite table and `"community"` only the community invite table, and exhaustion and a thrown lookup both give "Failed to generate a unique invite code" |
| Shared.AllCollideExhausts | src/lib/shared.ts:19-35 | when every candidate collides, the generator fails after exactly `maxAttempts` lookups |
| Shared.StoreErrorStopsAt | src/lib/shared.ts:18-35 | a lookup error at attempt `j` ends the generator there, failed, with `j + 1` lookups: there is no retry |
| Shared.FirstFreeReturned | src/lib/shared.ts:19-30 | the first candidate not found in the table is returned, after one lookup per attempt up to it |
| Shared.InsertFreeCodeKeepsUnique | src/lib/shared.ts:20-30 | inserting an invite whose code the lookup did not find keeps the invite codes of that table pairwise distinct |
| Store.SetStatus | src/routes/trip/handlers.ts:271-274 | the update writes the new status into every row with that id and changes no other row and, in those rows, no other column |
| Store.PatchCommunities | src/routes/community/handlers.ts:392-396 | the update patches every community with that id, field by field where the patch supplies one, and changes no other row |
| TripWorkflow.GenerateInvite | src/routes/trip/handlers.ts:19-81 | 401 without a user; a failed code generation gives 500 whether or not the caller owns the trip; a non-owner then gets 403; 200 iff there is a user, a code was generated and the caller owns the trip; then one trip invite is inserted carrying exactly the code the generator returned, inviter = caller and expiry = now + 604 800 000 ms; every failure leaves the store unchanged; validity and code uniqueness are preserved |
| TripWorkflow.CreateTrip | src/routes/trip/handlers.ts:83-125 | 401 without a user; `maxParticipants` becomes 5 when it is absent or 0; the new trip has `createdBy` = caller, the body's name, description, start date and location, `isPrivate` false unless the body sets it, and the body's `communityId`; the store gains exactly the trip and one participant row for the creator with role organizer |
| TripWorkflow.Details | src/routes/trip/handlers.ts:163-218 | `isParticipant` holds iff the caller has a participant row for the trip; `isAdmin` holds iff the caller's first such row has role organizer; `memberCount` is the trip's number of participant rows; the trip is reported iff it exists |
| TripWorkflow.CreatorIsAdmin | src/routes/trip/handlers.ts:96-215 | right after creating a trip, its details show the creator as admin and participant, with a head count of 1 |
| TripWorkflow.Overview | src/routes/trip/handlers.ts:288-344 | page and limit default to 0 and 5; a negative offset or limit is taken to fail with 500 (see Left out); otherwise the result is at most `limit` trips starting at offset `page*limit`, each annotated with the caller's participation and the trip's participant count |
| TripWorkflow.CreateJoinRequest | src/routes/trip/handlers.ts:346-442 | the checks run in this order, each failing with no write: 401, already a participant 400, any join request of any status 400, trip missing 404; 200 iff all pass; a private trip gains exactly one pending request and no participant, a public trip exactly one participant row with role participant and no request; the inserted row is answered as the one-element array the insert returns |
| TripWorkflow.CreateJoinRequestKeepsRequestsUnique | src/routes/trip/handlers.ts:378-425 | if no two join requests share a user and trip, that stays true after any call |
| TripWorkflow.JoinRequestCounts | src/routes/trip/handlers.ts:413-440 | after a successful call, the caller has exactly one request-or-participant row for the trip, and it is a request iff the trip is private |
| TripWorkflow.RepeatJoinRefused | src/routes/trip/handlers.ts:361-395 | a second call after a successful one answers 400 and writes nothing |
| TripWorkflow.AcceptJoinRequest | src/routes/trip/handlers.ts:220-287 | 401 when there is no user, the trip is missing, or the caller is not its creator; 404 when no request has the id; neither writes; on success one participant row (requester, trip id from the URL, participant) is inserted and exactly that request becomes approved, with no check of the request's trip, its status or existing membership; the answer is the one-element array the insert returns |
| TripWorkflow.AcceptTwiceAddsTwoRows | src/routes/trip/handlers.ts:262-274 | accepting the same request twice succeeds both times and adds two participant rows for the requester |
| TripWorkflow.LeaveTrip | src/routes/trip/handlers.ts:444-481 | without a participant row it answers 400 and deletes nothing; otherwise exactly the found row is deleted, returned, and all other rows keep their order |
| TripWorkflow.JoinThenLeaveRestores | src/routes/trip/handlers.ts:426-480 | joining a public trip and then leaving restores every table; only the id counter moved |
| TripWorkflow.LeaveRemovesFound | src/routes/trip/handlers.ts:444-481 | when the caller's first participant row for the trip sits at index k, leaving leaves the participant table with exactly that row removed, every other row in order, and every other table unchanged |
| TripHandlers.GenerateInvite | src/routes/trip/handlers.ts:19-81 | the handler's response and new store are those of `TripWorkflow.GenerateInvite` |
| TripHandlers.CreateTrip | src/routes/trip/handlers.ts:83-125 | the handler's response and new store are those of `TripWorkflow.CreateTrip` |
| TripHandlers.GetTripDetails | src/routes/trip/handlers.ts:163-218 | the handler answers `TripWorkflow.Details` |
| TripHandlers.SummarizePage | src/routes/trip/handlers.ts:317-335 | the in-place loop over the array of trips leaves each element annotated as `TripWorkflow.Summarize` says |
| TripHandlers.GetTripOverview | src/routes/trip/handlers.ts:288-344 | the handler answers `TripWorkflow.Overview` |
| TripHandlers.CreateJoinRequest | src/routes/trip/handlers.ts:346-442 | the handler's response and new store are those of `TripWorkflow.CreateJoinRequest` |
| TripHandlers.AcceptJoinRequest | src/routes/trip/handlers.ts:220-287 | the handler's response and new store are those of `TripWorkflow.AcceptJoinRequest` |
| TripHandlers.LeaveTrip | src/routes/trip/handlers.ts:444-481 | the handler's response and new store are those of `TripWorkflow.LeaveTrip` |
| CommunityWorkflow.GenerateInvite | src/routes/community/handlers.ts:86-149 | 401 without a user; a failed code generation gives 500 before ownership is looked at; a non-creator then gets 403; 200 iff there is a user, a code was generated and the caller created the community; then one community invite is inserted carrying exactly the code the generator returned, inviter = caller and expiry = now + 7 days; failures leave the store unchanged |
| CommunityWorkflow.GenerationFailureHidesOwnership | src/routes/community/handlers.ts:97-113 | when code generation fails, every caller gets the same answer, owner or not |
| CommunityWorkflow.JoinCommunity | src/routes/community/handlers.ts:151-220 | 401; an existing member gets 400 before existence is checked; a missing community 404; none of these write; 200 iff all pass; a private community gains one pending request, a public one exactly one member row with role member and no request; the inserted row is answered as the one-element array the insert returns |
| CommunityWorkflow.JoinPrivateTwiceDuplicates | src/routes/community/handlers.ts:193-205 | two calls by a non-member on a private community both succeed and leave two more requests for that user and community |
| CommunityWorkflow.AcceptJoinRequest | src/routes/community/handlers.ts:222-289 | 401 for a missing community or a non-creator; 404 for an unknown request id; neither writes; on success one member row (requester, URL community id, member) is inserted and that request becomes approved; the answer is the one-element array the insert returns |
| CommunityWorkflow.JoinPrivateRequests | src/routes/community/handlers.ts:193-205 | a non-member joining an existing private community gets exactly one new pending request |
| CommunityWorkflow.AcceptSucceeds | src/routes/community/handlers.ts:236-276 | the creator accepting an existing request gets exactly the member insert and the status update |
| CommunityWorkflow.NewcomerIsPlainMember | src/routes/community/handlers.ts:301-376 | after the owner's admin row and the newcomer's member row are added to a community that had no members, the details seen by the newcomer say member, not admin, and a member count of 2 |
| CommunityWorkflow.RequestThenAccept | src/routes/community/handlers.ts:151-378 | create a private community, request to join it, have the creator accept: the newcomer is then reported as a member, not an admin, and the head count is 2 |
| CommunityWorkflow.LeaveCommunity | src/routes/community/handlers.ts:403-438 | 400 with nothing deleted when the caller has no member row; otherwise exactly the caller's first member row is deleted and returned |
| CommunityWorkflow.CreateCommunity | src/routes/community/handlers.ts:291-318 | 401 without a user; the community is inserted with `createdBy` = caller, plus one member row for the caller with role admin, and nothing else |
| CommunityWorkflow.Details | src/routes/community/handlers.ts:320-378 | `isMember` holds iff the caller has a member row; `isAdmin` holds iff that row's role is admin; `memberCount` counts the community's member rows |
| CommunityWorkflow.CreatorIsAdmin | src/routes/community/handlers.ts:301-376 | right after creating a community, its details show the creator as admin and member with a head count of 1 |
| CommunityWorkflow.Overview | src/routes/community/handlers.ts:34-84 | page and limit default to 0 and 5; a negative offset or limit is taken to fail with 500 (see Left out); otherwise at most `limit` communities from offset `page*limit`, each with the caller's membership and the member count |
| CommunityWorkflow.UpdateCommunity | src/routes/community/handlers.ts:380-401 | 401 without a user; otherwise the community with that id takes the patched fields, and nothing else changes |
| CommunityWorkflow.DeleteCommunity | src/routes/community/handlers.ts:440-459 | 401 without a user; otherwise every row with that id is removed and returned |
| CommunityWorkflow.UpdateAndDeleteIgnoreCaller | src/routes/community/handlers.ts:392-454 | which signed-in user calls update or delete makes no difference: there is no ownership check |
| CommunityWorkflow.DeleteRemovesExactlyTheRow | src/routes/community/handlers.ts:451-454 | deleting a community removes exactly its row, returns it, and keeps the others in order |
| CommunityHandlers.GenerateInvite | src/routes/community/handlers.ts:86-149 | the handler's response and new store are those of `CommunityWorkflow.GenerateInvite` |
| CommunityHandlers.JoinCommunity | src/routes/community/handlers.ts:151-220 | the handler's response and new store are those of `CommunityWorkflow.JoinCommunity` |
| CommunityHandlers.AcceptJoinRequest | src/routes/community/handlers.ts:222-289 | the handler's response and new store are those of `CommunityWorkflow.AcceptJoinRequest` |
| CommunityHandlers.LeaveCommunity | src/routes/community/handlers.ts:403-438 | the handler's response and new store are those of `CommunityWorkflow.LeaveCommunity` |
| CommunityHandlers.CreateCommunity | src/routes/community/handlers.ts:291-318 | the handler's response and new store are those of `CommunityWorkflow.CreateCommunity` |
| CommunityHandlers.GetCommunityById | src/routes/community/handlers.ts:320-378 | the handler answers `CommunityWorkflow.Details` |
| CommunityHandlers.SummarizePage | src/routes/community/handlers.ts:57-79 | the in-place loop over the array of communities leaves each element annotated as `CommunityWorkflow.Summarize` says |
| CommunityHandlers.GetCommunityOverview | src/routes/community/handlers.ts:34-84 | the handler answers `CommunityWorkflow.Overview` |
| CommunityHandlers.UpdateCommunityById | src/routes/community/handlers.ts:380-401 | the handler's response and new store are those of `CommunityWorkflow.UpdateCommunity` |
| CommunityHandlers.DeleteCommunity | src/routes/community/handlers.ts:440-459 | the handler's response and new store are those of `CommunityWorkflow.DeleteCommunity` |
| LegacyTrips.ListTrips | src/routes/trip.ts:11-30 | 401 without a user; otherwise exactly the trips the caller created: each returned row is a stored trip created by the caller, and every such trip is returned |
| LegacyTrips.CreateTrip | src/routes/trip.ts:31-89 | 401 without a user; one trip with `createdBy` = caller, `maxParticipants` 5 when absent or 0, start location `{lat: 0, lng: 0}` unless the body supplies one; no participant row is written |
| LegacyTrips.OverviewAsWritten | src/routes/trip.ts:91-140 | as written, the route succeeds only on an empty trip table, with an empty list; any trip makes it fail |
| LegacyTrips.OverviewAsWrittenFailsOnAnyTrip | src/routes/trip.ts:108-131 | a single stored trip is enough for the written overview to fail with 500 |
| LegacyTrips.Overview | src/routes/trip.ts:91-140 | as intended: at most 5 trips, the first ones stored; each has its full participant count and at most 3 participants, all stored rows of that trip |
| LegacyTrips.JoinTripAsWritten | src/routes/trip.ts:142-187 | as written, no call succeeds and none writes: 401, 400 "Already a member of this trip" for an existing participant, otherwise a throw |
| LegacyTrips.JoinTripAsWrittenNeverJoins | src/routes/trip.ts:167-176 | on an empty store the written route throws where the intended one inserts the participant |
| LegacyTrips.JoinTrip | src/routes/trip.ts:142-187 | as intended: an existing participant gets 400 "Already a member of this trip" and nothing is written; otherwise exactly one participant row with role participant is inserted, without looking at the trip's existence or visibility |
| LegacyTrips.JoinTripTwiceRefused | src/routes/trip.ts:153-167 | after one successful join the caller has exactly one participant row for the trip, and a second join is refused |
| LegacyTrips.DeleteTrip | src/routes/trip.ts:288-312 | 401 without a user; otherwise the trips kept are exactly those not matching both the id and `createdBy` = caller, only the trip table changes, and the answer is `false` with status 200, because the route returns `set.status === 204` |
| LegacyTrips.DeleteByNonOwnerChangesNothing | src/routes/trip.ts:299-303 | deleting a trip one did not create leaves the store unchanged |
| LegacyTrips.DeleteByOwnerRemovesOne | src/routes/trip.ts:299-303 | deleting one's own trip removes exactly that row and keeps the others in order |
| LegacyTripRoutes.ListTrips | src/routes/trip.ts:11-30 | the route answers `LegacyTrips.ListTrips` |
| LegacyTripRoutes.CreateTrip | src/routes/trip.ts:31-89 | the route's response and new store are those of `LegacyTrips.CreateTrip` |
| LegacyTripRoutes.GetOverview | src/routes/trip.ts:91-140 | the corrected route, with its in-place loop over the array of trips, answers `LegacyTrips.Overview` |
| LegacyTripRoutes.JoinTrip | src/routes/trip.ts:142-187 | the corrected route's response and new store are those of `LegacyTrips.JoinTrip` |
| LegacyTripRoutes.DeleteTrip | src/routes/trip.ts:288-312 | the route's response and new store are those of `LegacyTrips.DeleteTrip` |
| Auth.Utf16Length | src/routes/auth.ts:15-17 | the length zod's `min` compares lies between the character count and twice it, and equals the character count when every character is in the Basic Multilingual Plane |
| Auth.SignupIssues | src/routes/auth.ts:11-27 | each of the four issues is reported iff its rule fails: username shorter than 3, email failing `email()`, password shorter than 6, password differing from `confirmPassword` (on path `confirmPassword`); nothing else is reported, and the refinement runs even when a field already failed |
| Auth.ValidateSignup | src/routes/auth.ts:11-33 | validation passes iff all four rules hold, and then carries the lower-cased email; otherwise it fails with exactly the collected issues, of which there is at least one |
| Auth.Register | src/routes/auth.ts:29-80 | invalid input gives 400 with the issues; a clash of id, username or email with an existing user makes the insert throw, giving 400; success iff valid and no clash; then exactly one user (id, username, lower-cased email, hash of the password) and one session for that id are added; every failure leaves the store unchanged |
| Auth.Login | src/routes/auth.ts:81-137 | every failure is 400 "Invalid email or password" and writes nothing; success iff email and password are non-empty, and the first user with that exact email has a non-empty hash the password verifies against; then one session for that user's id is added |
| Auth.RegisterThenLogin | src/routes/auth.ts:47-124 | after a successful registration, logging in with the stored lower-cased email and the password succeeds, with a session for the new user |
| Auth.LoginWithTypedEmailFails | src/routes/auth.ts:16-99 | login compares the email exactly, so logging in with an email that lower-casing changed fails unless another account has that spelling |
| AuthRoutes.Register | src/routes/auth.ts:29-80 | the route's response and new store are those of `Auth.Register` |
| AuthRoutes.Login | src/routes/auth.ts:81-137 | the route's response and new store are those of `Auth.Login` |

## Left out

- HTTP, Elysia routing, cookies, the body schemas of `src/routes/trip/index.ts` and `src/routes/community/index.ts`, and extra body properties these frameworks tolerate: framework plumbing. Handlers take an already authenticated `user` (or none) and already parsed ids.
- `Number.parseInt` of a non-numeric id (NaN): ids are taken as parsed integers.
- Foreign keys, cascades and check constraints: the visible schema files are older than the handlers, so they cannot say which inserts the database would refuse. Inserts referring to a missing trip, community or user are accepted.
- CommunityWorkflow.DeleteCommunity, CommunityWorkflow.DeleteRemovesExactlyTheRow, LegacyTrips.DeleteTrip, LegacyTrips.DeleteByOwnerRemovesOne: the references in `src/db/schema/community.ts` and `src/db/schema/trip.ts` declare no `onDelete`, so if the database enforces them, deleting a community that still has member rows (every community made by `createCommunity` has its admin row) or a trip that still has participant rows would be refused and the handler would answer 500. The model answers 200, removes the row and leaves member, participant and request rows that point at the removed id.
- Database failures other than the invite lookup and the auth unique constraints: the catch paths "Failed to create an invite", "Failed to accept join request" and the error return of `createTrip` are not produced.
- Transactions: each handler's writes are applied in sequence and either all happen or, on a modelled failure, none do.
- `toDateString()` formatting of invite expiry: the stored expiry is the calendar date of now + 7 days, which the database reads as midnight of that day, so it lies up to a day before the modelled `now + InviteLifetime` milliseconds; the model keeps the millisecond time and does not capture that truncation or the time zone it depends on.
- The `with` joins that add profile and community data to detail reads, and the column projections of the overviews: the model returns the rows themselves.
- The trip columns `endDate`, `endLocation` and `route`, which `createTrip` copies from the body into the row: the `Trip` record omits them, so the model says nothing about their values.
- Negative page or limit on the two overviews: what the store does with a negative `offset` or `limit` depends on how the ORM renders them (some versions omit such a `LIMIT`, which would answer 200 with every row). The model assumes the database refuses them and the error escapes the handler with 500.
- Per-table id sequences: the database numbers each table's rows from its own serial column; the model draws every table's ids from one shared counter, so the ids in responses (for example `requestId` in `CommunityWorkflow.RequestThenAccept`) are not the ones the database would hand out. Only distinctness and ascending order within a table are relied on.
- Row order without `ORDER BY` is taken to be storage order (insertion order, less deletions).
- The trip's `isPrivate` default is not visible in the schema files: a trip made by `createTrip` is public unless the body sets `isPrivate`, and a trip made by `POST /trip` of `src/routes/trip.ts` is always public.
- The community patch's `profilePicture` field does not appear in the model, and an empty patch is applied as a no-op rather than refused.
- `getCommunity`, `updateTrip`, `deleteTrip` of `src/routes/trip/handlers.ts`, and `GET /:id` and `PATCH /:id` of `src/routes/trip.ts`: reads and updates outside the membership workflow.
- `src/routes/message.ts`, `vehicle.ts`, `asset.ts`, `community.ts`, `user.ts`, the scheduled job and the lucia adapter: concurrency, network and foreign services, or thin CRUD.
- The moderator role is declared but never assigned by any handler.
- Session creation and expiry inside lucia: a session is a row (session id, user id).
- Auth.Register: the 400 body on a clash carries the database's exception message, which the model reduces to `Thrown`; the zod field-error flattening is kept as the list of issues.
- Auth.Login: a thrown exception inside the route, which would answer 400 with its message, is not modelled; `typeof` checks are subsumed by string parameters, so only the empty string is the falsy case.

## Findings

| source | as written | input that shows it | evidently intended | confidence | as-written member | corrected member |
|---|---|---|---|---|---|---|
| src/routes/trip.ts:108-131 | the overview loop names `tripParticipant` and `count`, which the file does not import, so the first iteration throws and the route fails | any store with at least one trip, e.g. the empty store plus one trip | each of the first five trips carries its first three participants and its participant count | not executed | LegacyTrips.OverviewAsWritten, LegacyTrips.OverviewAsWrittenFailsOnAnyTrip | LegacyTrips.Overview, LegacyTripRoutes.GetOverview |
| src/routes/trip.ts:169-171 | `/join/:id` inserts into `tripParticipant`, which the file does not import, so every join that passes the duplicate check throws before writing | the empty store, any user, any trip id | the caller becomes a participant of the trip | not executed | LegacyTrips.JoinTripAsWritten, LegacyTrips.JoinTripAsWrittenNeverJoins | LegacyTrips.JoinTrip, LegacyTripRoutes.JoinTrip |
