/** The conversation store's data (script.js lines 5-6 and 159-167): a map
    from chat id to chat record, and the id of the active chat, if any. */
module ChatModel {
  import opened Wrappers

  /** Chat ids are `Date.now().toString()`: a non-empty run of decimal
      digits. Never empty, so the script's `!currentChatId` is exactly "no
      chat is active"; never the name of a property every object inherits
      (`constructor`, `toString`, ...), so `chats[chatId]` finds exactly the
      stored chats. */
  type ChatId = s: string | s != [] && AllDigits(s) witness "0"

  /** Every character is a decimal digit. */
  predicate AllDigits(s: string) {
    s == [] || ('0' <= s[0] <= '9' && AllDigits(s[1..]))
  }

  datatype Role = User | Assistant

  datatype Message = Message(role: Role, text: string)

  /** `created` is the creation time as milliseconds since the epoch; the
      script stores it as an ISO string and compares the parsed dates. */
  datatype Chat = Chat(id: ChatId, title: string, messages: seq<Message>, created: int)

  datatype Store = Store(chats: map<ChatId, Chat>, current: Option<ChatId>)

  const DefaultTitle := "New Chat"

  /** Every record sits under its own id. */
  predicate IdsMatch(chats: map<ChatId, Chat>) {
    forall k :: k in chats ==> chats[k].id == k
  }

  /** The store invariant: every chat is stored under its own id, and the
      active id is absent or a key of `chats`. */
  predicate Valid(st: Store) {
    && IdsMatch(st.chats)
    && (st.current.Some? ==> st.current.value in st.chats)
  }

  /** `k` names a chat with the greatest creation time. */
  predicate IsNewest(chats: map<ChatId, Chat>, k: ChatId) {
    && k in chats
    && forall j :: j in chats ==> chats[j].created <= chats[k].created
  }
}
