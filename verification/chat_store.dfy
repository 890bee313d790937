/** The persisted state of the chat service: the `chats` and `messages` tables, reduced to the
    columns their SQL reads or writes. */
module ChatStore {

  type ChatId = string
  type Username = string

  /** A point in time. The store only compares timestamps, so a natural number stands in for
      `datetime.now()`. */
  type Time = nat

  /** Title stored for a new chat whose payload has no `title`. */
  const DefaultTitle: string := "New Chat"

  /** Model stored for a new chat whose payload has no `model`. */
  const DefaultModel: string := "gpt-3.5-turbo"

  /** How many most recently updated chats a user keeps; also the row limit of the chat listing. */
  const RetentionLimit: nat := 20

  /** A text value the store accepts as a query parameter: PostgreSQL text cannot hold U+0000, and
      the driver refuses to bind a string that contains it, raising before the statement runs. */
  predicate Storable(text: string) {
    '\0' !in text
  }

  /** A row of `chats`, without its key. */
  datatype ChatRow = ChatRow(username: Username, title: string, model: string, createdAt: Time, updatedAt: Time)

  /** A row of `messages`, without its serial id and its chat id. */
  datatype Message = Message(role: string, content: string, timestamp: Time)

  /** `chats` is keyed by its primary key `chat_id`. `messages` maps a chat id to that chat's message
      rows in insertion order. A chat without messages has either no entry (after a delete) or an
      empty entry (after a save of an empty list); `MessagesOf` reads both as no messages. */
  datatype Store = Store(chats: map<ChatId, ChatRow>, messages: map<ChatId, seq<Message>>)

  /** The foreign key of `messages.chat_id`: no message refers to a chat that does not exist.
      Stated on entries rather than rows, it is slightly stronger than the foreign key: it also
      forbids an empty entry for a missing chat, which no operation creates. */
  predicate Valid(s: Store) {
    s.messages.Keys <= s.chats.Keys
  }

  /** The state `init_db` leaves behind: both tables dropped and created afresh. */
  function Empty(): Store {
    Store(map[], map[])
  }

  /** The message rows whose `chat_id` is `id`, in insertion order. */
  function MessagesOf(s: Store, id: ChatId): seq<Message> {
    if id in s.messages then s.messages[id] else []
  }

  /** The chat ids whose row has `username = u`. */
  function Owned(chats: map<ChatId, ChatRow>, u: Username): (ids: set<ChatId>)
    ensures ids <= chats.Keys
  {
    set k | k in chats && chats[k].username == u
  }

  /** Every user has at most `RetentionLimit` chats. */
  ghost predicate Bounded(s: Store) {
    forall u :: |Owned(s.chats, u)| <= RetentionLimit
  }

  /** Deletes the given chats together with their messages, as `DELETE FROM messages` followed by
      `DELETE FROM chats` (or the `ON DELETE CASCADE` of the foreign key) does. */
  function Forget(s: Store, ids: set<ChatId>): Store {
    Store(s.chats - ids, s.messages - ids)
  }
}
