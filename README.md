# Anime character chat: a Dafny model of its server core

This project models the server side of a small web application. Visitors
browse anime-character profiles and chat with them through a chat-completion
service. A signed-in administrator creates, edits and deletes characters.
The model covers:

- the three tables (`characters`, `messages`, `users`) behind `DatabaseStorage`,
  as in-memory sequences of rows with serial ids and the primary-key and
  unique-username constraints (`Storage`);
- the insert schemas that decide which request bodies are accepted (`Schema`);
- the password record `hex(key) + "." + hex(salt)`, its check, the admin
  bootstrap, login, logout and the admin middleware (`Auth`);
- the chat request sent to the completion service and the first-choice
  extraction (`OpenRouter`);
- every HTTP handler as a transition on the store and the session, above all
  the two-phase message send: the user's message is always stored, and the
  generated reply is stored only when generation succeeds (`Routes`, `Http`);
- the case-insensitive search filter of the home page (`Home`).

`Wrappers` holds `Option` and `Result`. `Text` holds the JavaScript runtime
behaviour these depend on: ASCII `toLowerCase`, `includes`, `Buffer` hex
encoding and decoding, and `split`.

Abstracted: scrypt is a function parameter `kdf`, and the random salt is a
parameter. The completion call is a function `send` from the request to an
outcome (exception, non-ok status, or the list of choice contents). The
clock gives timestamps as integer parameters. The URL check of the image
field is a predicate parameter `isUrl`.

Behaviour of the code worth knowing, which the model keeps:

- The character-mutating routes use `requireAuth`, which only checks that
  `session.userId` is truthy. It does not check that the user is "admin".
  The stricter check is the middleware on the `/api/admin` subtree, and no
  route is registered there. `Routes.RequireAuth` and `Auth.AdminGate`
  model the two checks separately.
- A stored record without "." or with a key of the wrong length makes
  `comparePasswords` throw. The login handler does not catch this, so no
  reply is sent (`Response.Unhandled`). It does not fail closed with a 401.
- Clearing a character's history needs no session.
- The stored user message takes `isUser` from the request body; the server
  does not force it to `true`. The client always sends `true`.
- drizzle-zod makes the serial `id` optional in every insert schema, so a
  body may name its own id. The model inserts it as given. An id held by
  another row violates the primary key (`DuplicateKey`). A PATCH may change
  a row's id in the same way.

## Model

| member | source | states |
|---|---|---|
| `Text.HexRoundTrip` | server/auth.ts:12-17 | decoding the hex written by `toString("hex")` with `Buffer.from(…, "hex")` gives back the same bytes |
| `Text.SplitPieces` | server/auth.ts:16 | `split(".")` yields more than one piece exactly when the record contains "." |
| `Text.SplitJoin` | server/auth.ts:12-16 | splitting `a + "." + b` on "." gives `[a, b]` when neither contains "." |
| `Schema.ParseUser` | shared/schema.ts:31-34 | a user body is accepted iff username is a string of length ≥ 1, password a string of length ≥ 6, id absent or a number, createdAt absent; the result carries the body's strings |
| `Schema.ParseCharacter` | shared/schema.ts:36-42 | a character body is accepted iff name, anime, description and personality are non-empty strings, imageUrl satisfies the URL predicate, id is absent or a number and no timestamp is given; the result carries the body's values |
| `Schema.ParseCharacterPatch` | shared/schema.ts:36-42 | the partial schema accepts iff every field that is present obeys the full schema's rule; absent fields stay absent in the result |
| `Schema.ParseMessage` | shared/schema.ts:23-44 | a message body is accepted iff characterId is a number (not NaN), content a string (possibly empty), isUser a boolean, id absent or a number and timestamp absent |
| `Schema.EmptyPatchAccepted` | shared/schema.ts:36-42 | the partial schema accepts the empty body, with every field absent |
| `Schema.FullImpliesPartial` | shared/schema.ts:36-42 | every body the full character schema accepts is accepted by the partial schema with all fields present and equal |
| `Schema.OverriddenCharacterId` | server/routes.ts:40-44 | after the path's number overwrites `characterId`, an accepted message belongs to exactly that character |
| `Schema.NaNCharacterIdRejected` | server/routes.ts:40-48 | an unparsable path id (NaN) always makes the message schema reject |
| `Storage.CharactersWithId` | server/storage.ts:34-40 | the rows selected by id are exactly the rows with that id, none iff the id is absent, at most one under the primary key |
| `Storage.EmptyPatchOnlyTouches` | server/storage.ts:53 | a patch with no field leaves the row as it was except that updatedAt becomes now |
| `Storage.PatchIdempotent` | server/storage.ts:53 | applying the same patch at the same time twice gives the same row as applying it once |
| `Storage.UpdateWhereFrame` | server/storage.ts:50-57 | an update by id leaves the rows selected by every other id unchanged, unless the patch moves a row onto that id |
| `Storage.UpdateKeepsUnique` | server/storage.ts:50-57 | an update keeps the primary key unique when the patch gives no id, the same id, or an id no row has |
| `Storage.DeleteWhere` | server/storage.ts:59-65 | the rows left are exactly those with another id; deleting an absent id changes nothing |
| `Storage.DeleteKeepsUnique` | server/storage.ts:59-65 | deleting rows keeps the character ids unique |
| `Storage.DeleteWhereFrame` | server/storage.ts:59-65 | after a delete no row has the id, and the rows of every other id are exactly as before |
| `Storage.ForCharacter` | server/storage.ts:67-73 | the messages selected for a character are exactly the stored messages with that characterId |
| `Storage.ForCharacterCounts` | server/storage.ts:67-73 | the selection holds each message of the character as many times as it is stored, and no other message |
| `Storage.WithoutCharacter` | server/storage.ts:106-110 | after clearing, the messages left are exactly those of other characters, with unique ids |
| `Storage.ForCharacterAppend` | server/storage.ts:75-81 | appending a message extends the list of its own character by that message and leaves every other character's list unchanged |
| `Storage.ClearKeepsOthers` | server/storage.ts:106-110 | clearing character c empties c's list and leaves every other character's list exactly as it was |
| `Storage.InsertByTime` | server/storage.ts:72 | inserting into a timestamp-sorted list keeps it sorted and adds exactly that message |
| `Storage.SortByTime` | server/storage.ts:72 | the result is sorted by timestamp and is a permutation of the input |
| `Storage.HistoryMembers` | server/storage.ts:67-73 | any permitted answer of getMessages(c) holds exactly the stored messages of c |
| `Storage.SingleMessageHistory` | server/storage.ts:67-73 | when the table holds a single message, the only permitted answer of getMessages for its character is that message |
| `Storage.StoredMessageListed` | server/storage.ts:67-81 | after a message is stored, every permitted answer of getMessages for its character contains it |
| `Storage.UsersWithId` | server/storage.ts:83-89 | the users selected by id are exactly those with that id |
| `Storage.UsersNamed` | server/storage.ts:91-97 | the users selected by username are exactly those with that name, none iff no user has it |
| `Storage.UsernameLookupAtMostOne` | shared/schema.ts:7 | with usernames unique, a lookup by username finds at most one row |
| `Storage.First` | server/storage.ts:35-39 | `const [row] = rows` is the first row, undefined iff there is none |
| `Storage.Storage.constructor` | server/storage.ts:113 | the store starts with three empty tables and every serial sequence at 1 |
| `Storage.Storage.GetCharacters` | server/storage.ts:30-32 | the whole characters table is returned |
| `Storage.Storage.GetCharacter` | server/storage.ts:34-40 | a row is returned iff one has the id, and it is a stored row with that id |
| `Storage.Storage.CreateCharacter` | server/storage.ts:42-48 | on success exactly one row with an id no row had is appended and returned; on a taken id the table is unchanged and DuplicateKey is raised; the serial advances iff no id was given |
| `Storage.Storage.UpdateCharacter` | server/storage.ts:50-57 | an absent id gives undefined and no change; otherwise the rows with the id are patched and the patched row is returned, unless the new id is taken, in which case nothing changes; an update whose patch gives no id, the same id or a free id always succeeds |
| `Storage.Storage.DeleteCharacter` | server/storage.ts:59-65 | returns true iff a row had the id; afterwards none has it; only the characters table may change, so messages are untouched |
| `Storage.Storage.GetMessages` | server/storage.ts:67-73 | the result is exactly the character's messages, each once, in non-decreasing timestamp order |
| `Storage.Storage.CreateMessage` | server/storage.ts:75-81 | on success exactly one row is appended and returned; a taken id leaves the table unchanged and raises DuplicateKey |
| `Storage.Storage.ClearMessages` | server/storage.ts:106-110 | every message of the character is removed and no message of any other character |
| `Storage.Storage.GetUser` | server/storage.ts:83-89 | a user is returned iff one has the id, and it has that id |
| `Storage.Storage.GetUserByUsername` | server/storage.ts:91-97 | a user is returned iff one has the name, and it is the only such row |
| `Storage.Storage.CreateUser` | server/storage.ts:99-105 | a new user with the next serial id is appended unless the username (or id) is taken, in which case nothing is stored |
| `OpenRouter.SystemPrompt` | server/openrouter.ts:6-7 | the system prompt contains the character's name and its personality |
| `OpenRouter.BuildRequest` | server/openrouter.ts:9-21 | the body names the fixed model and holds exactly two messages, "system" then "user", and the user message is the text verbatim |
| `OpenRouter.FirstChoice` | server/openrouter.ts:35-45 | success iff the call completed with at least one choice, the value being the first choice; every failure is the one generic error |
| `OpenRouter.GenerateResponse` | server/openrouter.ts:5-46 | succeeds iff sending the built request completes with a choice, returning the first; otherwise fails with "Failed to generate AI response" |
| `Auth.HashPassword` | server/auth.ts:9-13 | the record is 128 hex digits of the derived key, ".", and the 32 hex digits of the salt, the salt's hex being what the KDF was given |
| `Auth.ComparePasswords` | server/auth.ts:15-20 | a record without "." throws (no salt); a key part that does not decode to 64 bytes throws (length mismatch); otherwise the result is whether the decoded key equals the KDF of the supplied password with the record's salt |
| `Auth.RecordSplits` | server/auth.ts:12-16 | splitting a record on "." recovers exactly the key hex and the salt hex that were joined |
| `Auth.CompareAgainstRecord` | server/auth.ts:15-19 | checking a password against a record succeeds, and is true iff the KDF gives it the same key as the recorded password under the record's salt |
| `Auth.OwnPasswordAccepted` | server/auth.ts:9-19 | a record accepts the password it was made from |
| `Auth.NamedAppend` | server/auth.ts:29-32 | appending a user adds it to the lookup of its own username only |
| `Auth.SetupAdmin` | server/auth.ts:22-33 | if "admin" exists nothing changes; otherwise one "admin" row with the hashed seed password and the next serial id is added and the serial advances; afterwards exactly one "admin" row exists, so running it twice adds one row in all |
| `Auth.Login` | server/auth.ts:36-47 | unknown username or wrong password answers 401 and leaves the session alone; a record that makes the check throw leaves the request unanswered; a match answers 200 and sets the session's userId to that user's id |
| `Auth.Logout` | server/auth.ts:50-54 | the session loses its userId and the reply is the logout message |
| `Auth.AdminGate` | server/auth.ts:57-69 | the request passes iff the session's userId is truthy and names a stored user called "admin"; otherwise the reply is 401 |
| `Routes.RequireAuth` | server/routes.ts:8-13 | the request passes iff the session's userId is truthy; otherwise 401 |
| `Routes.ListCharacters` | server/routes.ts:17-20 | answers 200 with the whole characters table |
| `Routes.ShowCharacter` | server/routes.ts:22-31 | answers 404 for an unparsable or absent id, otherwise 200 with the stored row of that id |
| `Routes.ListMessages` | server/routes.ts:33-37 | answers 200 with the character's history in timestamp order, empty for an unparsable id |
| `Routes.PathValue` | server/routes.ts:40 | the merged characterId is the path's number, or NaN when the path does not parse |
| `Routes.MessagePayload` | server/routes.ts:40-44 | an accepted payload has the path's character id, whatever the body said |
| `Routes.ReplyText` | server/routes.ts:52-62 | with no such character the reply fails; otherwise it is the generation for that character's name and personality and the user's content |
| `Routes.InvalidMessageStoresNothing` | server/routes.ts:41-48 | a payload the message schema rejects answers 400 and leaves the message table and its serial as they were |
| `Routes.StoreMessageAnswersWhatItStores` | server/routes.ts:50-74 | a colliding user message leaves the request unanswered and stores nothing; otherwise the answer lists one or two messages, exactly those are appended, the first is the user's message, and a second, non-user message of the same character with the generated text exists iff generation succeeded and the next serial id is free |
| `Routes.SentMessageBelongsToPath` | server/routes.ts:40-50 | whenever a valid send is answered, the first listed message is stored, has the path's character id and the body's content |
| `Routes.MissingCharacterStillStoresUserMessage` | server/routes.ts:52-56 | with no such character the answer is the user's message alone, and it stays stored |
| `Routes.FailedGenerationScenario` | server/routes.ts:39-75 | sending "hi" to character 5 with a failing generator answers with that one user message, and reading the history afterwards gives exactly it |
| `Routes.SuccessfulGenerationScenario` | server/routes.ts:39-75 | sending "hi" to an existing character 5 with a generator answering "Hello!" answers with the user's "hi", then the non-user "Hello!" with the next serial id |
| `Routes.StoreReply` | server/routes.ts:58-74 | a failed generation, or a reply whose insert collides, answers with the user's message alone; otherwise the reply is appended with the next serial id and both are answered |
| `Routes.StoreAndReply` | server/routes.ts:50-74 | the user's message is inserted before the character lookup and generation, and the effect is the one the message-send lemmas describe |
| `Routes.SendMessage` | server/routes.ts:39-75 | an invalid payload gives 400 and stores nothing; a body naming an id another message already has leaves the request unanswered and stores nothing; otherwise the user message (path character id) is stored first; then exactly one more, non-user message of the same character with the generated text is stored and both are returned iff the character exists, generation succeeds and the reply's id is free; otherwise only the user message is returned and stays stored |
| `Routes.CreateCharacter` | server/routes.ts:78-87 | no session gives 401, an invalid body 400, both with no change to the table or the serial; otherwise the serial advances iff the body gave no id, and one row is appended and returned with 201, or a taken id leaves the request unanswered with the table unchanged |
| `Routes.UpdateCharacter` | server/routes.ts:89-104 | no session 401, invalid patch 400, unknown id 404, all with no change; a patch whose id another row holds leaves the request unanswered with no change; otherwise only the matching row's supplied fields and updatedAt change and the row is returned with 200 |
| `Routes.DeleteCharacter` | server/routes.ts:118-127 | no session 401, unknown id 404, both with no change; otherwise 204 and the row is gone; messages never change |
| `Routes.ClearHistory` | server/routes.ts:106-116 | needs no session, always answers 204, and removes exactly that character's messages |
| `Routes.ShowUser` | server/routes.ts:130-135 | answers 401 without a truthy userId, otherwise 200 with that id |
| `Home.FilterCharacters` | client/src/pages/home.tsx:13-16 | a character is kept iff its lower-cased name or anime includes the lower-cased search |
| `Home.FilterCounts` | client/src/pages/home.tsx:13-16 | each matching character is kept as many times as it occurs in the input, and no other character is kept |
| `Home.FilteredCharacters` | client/src/pages/home.tsx:13 | no list gives no result; a list gives the filtered list |
| `Home.FilterIsSubsequence` | client/src/pages/home.tsx:13 | the result is a subsequence of the input, order kept |
| `Home.EmptySearchKeepsAll` | client/src/pages/home.tsx:13-16 | an empty search returns every character |
| `Home.FilterCaseInsensitive` | client/src/pages/home.tsx:14-15 | searches equal up to letter case give the same result |
| `Home.SearchLowerCased` | client/src/pages/home.tsx:14-15 | a search and its lower-cased form give the same result |
| `Home.FilterIdempotent` | client/src/pages/home.tsx:13-16 | filtering the result again changes nothing |

## Left out

- The database connection and Drizzle itself: the tables are in memory, and only `where`, `orderBy` and `returning` are modelled. Storage failures other than key violations cannot happen in the model, so the 500 branch of clearing history (server/routes.ts:113-115) is never taken.
- `Storage.Storage.GetCharacters`: Postgres promises no order for an unordered select; the model answers in table order.
- `Storage.Storage.GetMessages`: the database's order among messages with equal timestamps is unspecified. The contract allows any such order, and the body computes one of them.
- `Storage.Storage.CreateUser`: takes no explicit id, because its only caller never passes one.
- scrypt, `randomBytes` and `timingSafeEqual` are abstract, and constant-time comparison is not a property here.
- The `fetch` to the completion service: URL, headers, API key, JSON decoding and its errors. A reply whose first choice lacks string content is not modelled; an empty `choices` list is.
- Express plumbing: cookies, the session store and its expiry, the `destroy` callback, `createServer`, and `console.error` logging. The session is reduced to its optional `userId`.
- Concurrency: handlers are modelled as running one at a time, each as one transition. The message send is treated as atomic although it awaits the character lookup and generation between its two inserts (server/routes.ts:50-68). Interleaved requests are not modelled: another send taking the next serial value, rows landing between the two messages, a concurrent history clear removing the user message, or the character being deleted after the user message is stored.
- What an uncaught rejection does to the process beyond leaving the request unanswered.
- `Auth.Login`: username and password are taken as strings; a body without them is not modelled.
- `parseInt` is abstract: a path id is its numeric result or NaN. A NaN id matches no row, as it would if the database accepted it.
- Zod's URL grammar is a predicate parameter. JSON numbers are taken as integers, so fractional ids and the 32-bit column range are not modelled.
- Unicode `toLowerCase`: only ASCII letters are lower-cased. String lengths count characters, not UTF-16 code units.
- `server/db.ts` is not part of this model. All React UI is left out: the admin, chat and login pages, the components and the routing. Their checks duplicate server rules or only drive the display.
