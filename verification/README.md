# Chat persistence and retention

A Dafny model of the storage core of a multi-user chat client that keeps each user's
conversations with a language model. The store has two tables. `chats` holds one row per
`chat_id`, with its owning `username`, `title`, `model`, `created_at` and `updated_at`.
`messages` holds the ordered messages of each chat. Four operations act on it:

- **save** (`save_chat`): upserts the chat row on `chat_id` and replaces the chat's messages
  wholesale with the payload's, all stamped with the write time;
- **retention** (`delete_old_chats`): keeps a user's 20 most recently updated chats and
  deletes the rest together with their messages;
- **listing** (`get_user_chats`): a user's chats, newest first, at most 20, each with its messages;
- **owner-scoped delete** (the SQL of the `/delete_chat` route): deletes a chat and its messages
  only when the caller owns it.

Around them sit the three request handlers that use the store (`/save_chat`, `/get_chats`,
`/delete_chat`), each behind the session check.

The state is an immutable value: a map from chat id to row and a map from chat id to a message
sequence (`ChatStore.Store`). Every operation is a pure function from a store to a store (or to a
listing). "Now" is a natural-number parameter of each write; timestamps are only compared.

Files and modules:

- `wrappers.dfy` — `Wrappers`: `Option` (a JSON key that may be missing) and `Result`.
- `chat_store.dfy` — `ChatStore`: rows, the store, the foreign-key predicate `Valid`, the
  per-user bound `Bounded`, the constants `"New Chat"`, `"gpt-3.5-turbo"` and 20.
- `recency.dfy` — `Recency`: the listing order `ORDER BY updated_at DESC`, made total by a
  tie-break on chat id; the ranking of a set of chats in that order and the facts about ranks.
- `database.dfy` — `Database`: `SaveChat`, `GetUserChats`, `DeleteOldChats`, `DeleteChat` and
  the properties that relate them.
- `application.dfy` — `Application`: the three handlers, and the invariants every reachable
  state keeps.

Modelling choices:

- **Key.** The primary key of `chats` is `chat_id` alone, and the upsert conflicts on `chat_id`
  only (database.py:20, 56). A save by a second user of an existing chat id therefore replaces
  its title, model, `updated_at` and messages but leaves `username` at the original owner. The
  model does exactly this (`Database.ForeignSaveOverwritesOwnersChat`). The table also declares
  `UNIQUE(chat_id, username)` (database.py:26), which the `chat_id` primary key already implies;
  it does not make chats per-owner.
- **Listing order.** `ORDER BY updated_at DESC` has no tie-break (database.py:92, 131). The model
  breaks ties on equal `updated_at` by ascending lexicographic chat id (`Recency.Newer`), a
  deterministic order. `Recency.NewestFirstUnique` shows that the order fixes the list. The
  source runs two such queries, the 20-row listing (database.py:88-94) and the full retention
  query (database.py:127-132), and PostgreSQL may break ties differently in each. The model gives
  both the same tie-break, which is what `Database.ListingUnchangedByRetention` and
  `Database.TopIdsUnchangedByRetention` rely on.
- **Message order.** All messages written by one save share one timestamp (database.py:77), so
  `ORDER BY timestamp` (database.py:104) leaves them tied. The model assumes the rows come back in
  insertion order, which is payload order.
- **Failed saves.** A payload message without `role` or `content` (missing or null) makes the
  insert loop raise, or breaks a `NOT NULL` column (database.py:35-36, 77). The transaction is
  never committed, so the store is unchanged and the handler answers 500 without running
  retention. A missing `chatId` or `chatData` in the request also ends in a 500 before any write.
- **U+0000.** PostgreSQL text cannot hold the NUL character, and the driver refuses to bind a
  string that contains one (`ChatStore.Storable`). A chat id, title or model containing it makes
  the upsert raise (database.py:53-67); a role or content containing it makes a message insert
  raise (database.py:74-77). Either way the save rolls back and the route answers 500. A delete
  with such a chat id raises inside the handler's `try` and answers 500 (application.py:250-277).
  The session user needs no check: it is always a key of the fixed `USERS` table
  (application.py:25, 119-121).
- **Initial state.** `init_db` drops and recreates both tables (database.py:14-40), so the
  initial state is `ChatStore.Empty()`.
- **Authentication** is an input: a `Session` is `Anonymous` or `LoggedIn(username)`.

## Model

| member | source | states |
|---|---|---|
| `Database.StampMessages` | database.py:72-77 | Succeeds iff every payload message has a role and a content, neither containing U+0000; the rows are then the payload messages in order, each stamped with the one write time; otherwise it reports the first malformed entry. |
| `Database.SaveChat` | database.py:46-81 | Commits iff the chat id and the stored title and model contain no U+0000 and every payload message has a role and a content without it; a refused row is reported before any message. After a save exactly one row exists for the id, and the row count grows by one only for a new id. Title, model and `updated_at` take the payload values or the defaults "New Chat", "gpt-3.5-turbo" and now. An existing row keeps its owner and `created_at`; a new row gets the saver as owner and the payload's `created_at` or now. The chat's messages are exactly the payload's, and no other chat's row or messages change. |
| `Database.TopIds` | database.py:88-94 | The ids the listing query returns: `min(n, 20)` of the user's chats, strictly newest first, containing a chat of that user iff fewer than 20 of the user's chats are listed before it. |
| `Database.GetUserChats` | database.py:83-120 | Returns only the user's chats, at most 20 (all of them when there are fewer), newest first. Each entry holds the chat's id, title, model, `created_at` and full message list. A chat is listed iff fewer than 20 of the user's chats are newer; a user without chats gets an empty listing. |
| `Database.DeleteEach` | database.py:138-140 | Deleting the listed chats one after another, messages first, removes exactly that set of chats and their messages. |
| `Database.DeleteOldChats` | database.py:122-144 | Afterwards the user has at most 20 chats, exactly 20 when there were more. It is a no-op at 20 or fewer. A chat survives iff it belongs to another user or fewer than 20 of the user's chats are newer. Survivors keep their rows and messages, evicted chats keep no messages, and the foreign key still holds. |
| `Database.DeleteChat` | application.py:249-267 | If the caller owns the chat, its row and all its messages are gone. Otherwise the store is unchanged. No other chat's row or messages change, and the foreign key still holds. |
| `Database.ResaveKeepsCreation` | database.py:53-67 | After two saves of one chat id, the second by any user, `created_at` and the owner are those of the first save; title and model are the second payload's. |
| `Database.SaveIsIdempotent` | database.py:53-77 | Repeating a save with the same payload and write time gives the same store: no duplicate row, no duplicated messages. |
| `Database.SaveThenListFirst` | database.py:46-120 | When the owner saves a chat later than every stored update, the owner's listing shows that chat first, with the payload's title, model and messages and the right `created_at`. |
| `Database.NewestIsListedFirst` | database.py:88-120 | A chat of the user updated strictly later than every other stored chat is the first entry of the user's listing, with its row and messages. |
| `Database.SavedChatIsListed` | database.py:46-120 | When the owner saves a chat later than every stored update, the owner's listing contains it, and every entry for it carries the payload's title, model and messages. |
| `Database.ForeignSaveOverwritesOwnersChat` | database.py:53-77 | A save by a user who does not own an existing chat id replaces that chat's title and messages. The row keeps its original owner, so it stays out of the saver's chats and listing. |
| `Database.SaveKeepsOthersChats` | database.py:53-67 | A save changes no other user's set of chats; the saver's set grows at most by the saved id. |
| `Database.RetentionEvictsOldest` | database.py:126-140 | Every chat retention keeps is listed before, so updated no earlier than, every chat of the same user it evicts. |
| `Database.RetentionEvictsSingleOldest` | database.py:136-140 | With 21 chats of distinct update times, retention removes exactly the least recently updated one and keeps the other 20 with their messages. |
| `Database.RetentionIsIdempotent` | database.py:137-140 | A second retention pass for the same user changes nothing. |
| `Database.ListingUnchangedByRetention` | database.py:88-140 | The user's listing is the same before and after a retention pass: retention deletes only chats the listing never shows. |
| `Database.SurvivorsAreListed` | database.py:88-140 | If a store keeps every other user's chats and exactly the user's chats with fewer than 20 newer ones, rows unchanged, then the user's remaining chats are exactly the listed ones. |
| `Database.TopIdsUnchangedByRetention` | database.py:88-140 | When retention evicts, the chats it keeps are exactly the listed ones, in the same order. |
| `Database.DeleteChatIsIdempotent` | application.py:250-267 | Deleting the same chat twice leaves the store as the first delete left it. |
| `Recency.Ranking` | database.py:127-134 | The ordered id list of a set of chats has each chat of the set exactly once and lists them strictly newest first. |
| `Recency.NewestFirstUnique` | database.py:127-134 | Two strictly newest-first lists of the same chats are equal, so the tie-broken order is deterministic. |
| `Recency.RankIsPosition` | database.py:134-138 | The chat at position i of the ordered list has exactly i of the listed chats before it, so "position 20 or later" is "at least 20 newer chats". |
| `Application.SaveChatRoute` | application.py:199-215 | Without a session it answers 401 and changes nothing. A missing chat id or payload, or a rolled-back save, answers 500 and changes nothing. It answers success exactly when the caller is logged in, both fields are present and the save commits; the resulting store is then that save followed by retention for the caller, who owns at most 20 chats afterwards. It keeps the foreign key and the per-user bound. |
| `Application.GetChatsRoute` | application.py:218-225 | It never changes the store. Without a session it answers 401. Otherwise it returns the caller's listing: at most 20 chats, all owned by the caller. |
| `Application.DeleteChatRoute` | application.py:233-273 | Without a session it answers 401. A missing or empty chat id answers 400, and a chat id containing U+0000 answers 500; both change nothing. Otherwise it answers success whatever the store holds. It removes the chat and its messages only when the caller owns it, and leaves the store unchanged otherwise. |
| `Application.SaveAndRetainKeepBound` | application.py:209-213 | If no user had more than 20 chats before a save followed by retention for the saver, none has afterwards. |
| `Application.DeleteRouteIsIdempotent` | application.py:233-273 | A second identical delete request gets the same answer and leaves the same store. |
| `Application.DeleteRouteHidesExistence` | application.py:250-273 | The answer to a delete request does not depend on the store, so it does not reveal whether the chat exists or whose it is. |
| `Application.EmptyChatIdIsUndeletable` | application.py:199-243 | In any store, when a committing save by the owner (or the first saver) of the empty id comes later than every stored update, the save route answers success and the chat survives retention, but the delete route rejects that id with 400 and leaves the store in place. |
| `Application.SaveThenGetRoundTrip` | application.py:199-225 | Saving a chat later than every stored update and then listing returns an answer that contains that chat, and its entry carries the payload's title, model and messages. |
| `Application.ReachableStatesAreValid` | application.py:199-273 | Any sequence of save, list and delete requests keeps both invariants: no message without its chat, and no user with more than 20 chats. |
| `Application.EmptyStoreIsValid` | database.py:9-44 | The freshly created store satisfies both invariants. |

## Left out

- Connection, cursor, commit and close handling (database.py:9-44, 146-151; application.py:12-13),
  and the DDL text: only the resulting state transitions are modelled. A store that is
  unreachable or fails mid-request (the 500 of application.py:275-277) is not modelled.
- The outbound call to the language-model API, `generate_response` and `/send_message`: an
  external HTTP request.
- `get_available_models`, the `USERS` table, `authenticate`, `/login`, `/logout`, `/` and
  `/health`: static data and session handling. The authenticated user is an input.
- The browser code (`static/chat.js`, `static/login.js`), the prototype UI and model-listing
  script under `ignore/`, and `config/__init__.py`: UI and tooling outside the store.
- Concurrency: interleaved saves and retention passes are not modelled. Every request runs to
  completion on one store value.
- Wall-clock time: timestamps are natural numbers supplied by the caller. Parsing a client
  `created_at` string that the database rejects is not modelled.
- Database.SaveChat: a `title`, `model` or `created_at` that is present but JSON null is stored
  as SQL NULL by the source (database.py:63-65; the columns are nullable, database.py:22-24).
  The model has no null values and treats such a payload like a missing key, so it gets the
  default title, the default model or the write time. Likewise, a `messages` key that is present
  but null makes the source raise; the model treats it as a missing key, that is, an empty list.
- Database.GetUserChats: the source builds a dictionary keyed by chat id; the model returns the
  entries as a sequence in listing order, each carrying its id. The message `timestamp` field is
  part of each message row.
- Application.GetChatsRoute: the answer is serialized with `jsonify` (application.py:225), whose
  default key sorting orders the chats by chat id in the HTTP body. The model returns the listing
  in recency order, and `Application.SaveThenGetRoundTrip` promises only that the saved chat is
  present, not its position.
- Request values of the wrong JSON type, such as a numeric `chatId`, are not modelled: ids are strings.
