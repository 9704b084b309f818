# TeleRPG-G player registration, modelled in Dafny

This project models the player-registration dialogue of the TeleRPG-G Telegram bot, from `src/conversations.ts`. The model has four parts.

- **The dialogue state.** A shared map from Telegram user id to a registration state: waiting for a name (`NameStep`), or waiting for a yes/no on a candidate name (`ConfirmStep(name)`).
- **The `/register` handler.** It puts the sender into the name step, whatever state they were in.
- **The `message:text` handler.** It advances the sender's registration by one step:
  - in the name step it trims the text and checks that its JavaScript length is between 3 and 20;
  - in the confirm step it lower-cases the reply and matches it against `yes`/`y`/`no`/`n`;
  - on a yes it calls `createPlayer` once.
- **The players table.** `createPlayer` inserts into it, and the insert fails when the Telegram user id is already present (a unique column) or the database fails.

Each handler is written twice:

- as a pure function of the old state: `Conversations.OnRegister`, `Conversations.OnText`, `Players.Insert`;
- as a method of a class that updates its fields in place: `RegistrationConversation.Register`, `RegistrationConversation.HandleText`, `PlayerRepository.CreatePlayer`.

Each method's `ensures` states that its new state equals the function applied to the old state. The properties are then proved as lemmas about the functions.

The three JavaScript string operations the dialogue uses are modelled in module `JsText`:

- `trim` removes the ECMAScript WhiteSpace and LineTerminator code points;
- `length` counts UTF-16 code units, so a character outside the Basic Multilingual Plane counts 2;
- `toLowerCase` maps ASCII letters.

The model follows the code as written. Three behaviours a reader might not expect:

- `/register` does not check whether the user already has a player. It puts the user back into the name step either way.
- On a yes, a duplicate Telegram user id is not treated as an earlier success. Like every other error of `createPlayer`, it is caught, an error reply is sent, and the confirm state stays as it was.
- The yes/no reply is lower-cased but not trimmed, so `" yes"` is not recognised.

Modules: `Wrappers` (Option), `JsText`, `Players` (the table and `createPlayer`), `Conversations` (the dialogue).

## Model

| member | source | states |
|---|---|---|
| `JsText.Trim` | src/conversations.ts:57 | The trimmed text is no longer than the input and has no whitespace at either end. |
| `JsText.TrimmedIffUnpadded` | src/conversations.ts:57 | A string equals its own trim exactly when neither end is whitespace. |
| `JsText.TrimIdempotent` | src/conversations.ts:57 | Trimming a trimmed name again changes nothing. |
| `JsText.TrimIsSlice` | src/conversations.ts:57 | The trimmed text is a contiguous slice of the input, and what is cut on each side is whitespace only. |
| `JsText.TrimIgnoresPadding` | src/conversations.ts:57 | Whitespace added on either side of a text does not change its trim. |
| `JsText.Utf16Length` | src/conversations.ts:59 | The JavaScript length lies between the number of characters and twice that number. |
| `JsText.Utf16LengthCountsCharacters` | src/conversations.ts:59 | The JavaScript length equals the number of characters exactly when every character lies in the Basic Multilingual Plane. |
| `JsText.ToLower` | src/conversations.ts:76 | Lower-casing keeps the length and maps each character on its own. |
| `Conversations.AffirmativeSpellings` | src/conversations.ts:76-78 | A reply counts as yes exactly when it is `y` or `yes`, each letter in either case. |
| `Conversations.NegativeSpellings` | src/conversations.ts:98 | A reply counts as no exactly when it is `n` or `no`, each letter in either case. |
| `Conversations.WhitespaceReplyUnrecognized` | src/conversations.ts:76-78 | A reply that contains any whitespace, such as `" yes"`, is neither yes nor no, because the reply is not trimmed. |
| `Conversations.OnRegister` | src/conversations.ts:28-35 | Without a sender nothing changes. Otherwise the sender's entry becomes the name step, whatever it was, and every other user's entry stays as it was. The candidate invariant is kept. |
| `Conversations.OnText` | src/conversations.ts:44-106 | A text message changes only the sender's entry. An entry is removed only when it was in the confirm step and the reply was yes. The table keeps its unique and increasing-id constraints. |
| `Conversations.OnTextKeepsCandidatesValid` | src/conversations.ts:56-68 | After any text message, every confirm-step name still has a length in [3, 20] and no whitespace at either end. |
| `Conversations.TextOutsideDialogueIgnored` | src/conversations.ts:45-54 | A message with no sender or chat, or from a user with no entry, changes neither the map nor the table and gets no reply. |
| `Conversations.NameStepOutcome` | src/conversations.ts:56-68 | In the name step, the entry becomes `ConfirmStep(trim(text))`, with a confirmation prompt, exactly when the trimmed length is in [3, 20]. Otherwise the map stays as it was and a retry prompt is sent. The table is untouched either way. |
| `Conversations.PaddedNameAccepted` | src/conversations.ts:57-68 | A valid name with whitespace around it becomes the candidate without the whitespace. |
| `Conversations.ConfirmYesCommits` | src/conversations.ts:78-97 | A yes in the confirm step makes one insert with the stored name and the sender's user and chat ids. On success the entry is deleted and the welcome names the player. On any failure of `createPlayer` the entry stays and an error reply is sent. |
| `Conversations.ConfirmNoRestarts` | src/conversations.ts:98-101 | A no in the confirm step sets the entry back to the name step and leaves the table alone. |
| `Conversations.ConfirmOtherRepeats` | src/conversations.ts:102-104 | Any other reply in the confirm step changes nothing and asks for yes or no again. |
| `Conversations.ConfirmIgnoresCase` | src/conversations.ts:76 | In the confirm step, two replies that lower-case to the same text have the same effect. |
| `Conversations.TextAddsAtMostOnePlayer` | src/conversations.ts:78-88 | A text message either leaves the table alone or appends exactly one player: the sender, under the confirmed name and chat, whom a lookup by user id then returns. |
| `Conversations.RegisteredUserGetsNoSecondPlayer` | src/conversations.ts:81-97 | For a user who already has a player, no text message changes the table, and the user's entry is never removed. |
| `Conversations.WalkthroughShortName` | src/conversations.ts:56-62 | The name `"Al"` is too short: the name step stays and a retry is sent. |
| `Conversations.WalkthroughPaddedName` | src/conversations.ts:56-73 | The name `" Alice "` becomes the candidate `"Alice"`. |
| `Conversations.WalkthroughUnrecognizedReply` | src/conversations.ts:102-104 | The reply `"nope"` keeps the candidate and asks for yes or no again. |
| `Conversations.WalkthroughNo` | src/conversations.ts:98-101 | The reply `"no"` goes back to the name step. |
| `Conversations.WalkthroughNewName` | src/conversations.ts:56-73 | The name `"Bob"` becomes the candidate. |
| `Conversations.WalkthroughYes` | src/conversations.ts:78-93 | For a user with no player, `"YES"` adds the player Bob with the next serial id, removes the entry and sends the welcome. |
| `Conversations.RegistrationConversation.constructor` | src/conversations.ts:18 | The map of active registrations starts empty, and the invariant holds. |
| `Conversations.RegistrationConversation.Register` | src/conversations.ts:28-41 | The new map is `OnRegister` of the old one. The reply is "cannot identify" without a sender, and the name prompt otherwise. The invariant is kept. |
| `Conversations.RegistrationConversation.HandleText` | src/conversations.ts:44-106 | The new map, the new table and the reply are exactly those `OnText` gives for the old map and table. The invariants of both objects are kept. |
| `Players.Insert` | src/player.ts:52-72 | The insert succeeds exactly when the database is available and no row has the Telegram user id. A failure leaves the table unchanged, and when the database is available the failure is the unique constraint. Success appends one row carrying the given name and ids. The constraints are kept. |
| `Players.FindByTelegramUserId` | src/player.ts:25-45 | The lookup finds a row exactly when some row has the id, and what it returns is a row with that id. |
| `Players.FindAfterAppend` | src/player.ts:25-45 | Appending a row leaves existing lookups alone, and makes the new row findable under its id when no earlier row had that id. |
| `Players.CreatedPlayerIsFound` | src/player.ts:52-72 | After a successful insert, a lookup by the new player's user id returns that player, and every other lookup is unchanged. |
| `Players.PlayerRepository.constructor` | src/database.ts:64-77 | When the table does not exist yet, it is created empty, with the serial sequence at 1. |
| `Players.PlayerRepository.FromTable` | src/database.ts:64-66 | On a later start the existing table is kept as it is: the repository holds exactly the given rows and sequence value, and its constraints hold. |
| `Players.PlayerRepository.CreatePlayer` | src/player.ts:52-72 | The new table and the result are those of `Insert` on the old table. The constraints are kept. |

## Left out

- Sending replies: the handlers return which reply is sent, as a `Reply` value. The wording of the texts is left out.
- Every reply send is assumed to succeed. In the source the `try` at src/conversations.ts:79-97 also covers the `delete` at line 88 and the welcome reply at lines 90-93. If sending the welcome throws, the player row exists and the entry is already deleted, yet the user gets the error reply, and a later yes gets no reply at all. `OnText` does not model this path.
- The database and Kysely query building are replaced by the table value.
  - A database failure other than the unique constraint is the `unavailable` parameter.
  - The `created_at` and `updated_at` columns are not modelled.
  - A failed insert does not advance the serial sequence in the model. In PostgreSQL it may, which changes only the numeric ids.
- Telegram ids are kept as integers. The source stores their decimal text, and that conversion is one-to-one.
- Concurrency: the model assumes handlers run one at a time, each without interruption. Two messages from the same user handled while a `createPlayer` call is awaited are not modelled.
- `JsText.ToLower`: lower-cases ASCII letters only. Non-ASCII case mapping is not modelled. No non-ASCII character lower-cases to a letter of `yes` or `no`, so the yes/no matching is unaffected.
- The grammY wiring, `src/bot.ts`, `src/index.ts`, `src/config.ts`, `src/storage.ts` and the migrations are not part of this model.
- The `varchar(255)` limit on the name column is not modelled; accepted names are at most 20 code units.
