/** The conversation store's operations (script.js lines 159-230 and
    260-270) as pure transitions. The rendering each of them triggers, the
    `localStorage` write and the clock are left out: a new chat's id and
    creation time are parameters. */
module ChatStore {
  import opened Wrappers
  import opened ChatModel
  import opened Recency
  import ChatTitle

  /** `startNewChat`: a chat titled "New Chat" with no messages is stored
      under `id` and becomes the active one. A chat already stored under
      `id` is overwritten, as the assignment `chats[chatId] = …` does. */
  function StartNewChat(st: Store, id: ChatId, created: int): (r: Store)
    ensures r.current == Some(id)
    ensures r.chats.Keys == st.chats.Keys + {id}
    ensures r.chats[id].id == id && r.chats[id].title == DefaultTitle
    ensures r.chats[id].messages == [] && r.chats[id].created == created
    ensures forall k :: k in st.chats && k != id ==> r.chats[k] == st.chats[k]
    ensures IdsMatch(st.chats) ==> Valid(r)
  {
    var chats := st.chats[id := Chat(id, DefaultTitle, [], created)];
    LoadChat(Store(chats, Some(id)), id)
  }

  /** `loadChat`: selects `id` when it names a stored chat; otherwise
      nothing changes. The chats themselves are never changed. */
  function LoadChat(st: Store, id: ChatId): (r: Store)
    ensures r.chats == st.chats
    ensures id in st.chats ==> r.current == Some(id)
    ensures id !in st.chats ==> r == st
    ensures Valid(st) ==> Valid(r)
  {
    if id !in st.chats then st else st.(current := Some(id))
  }

  /** The chat `AddMessage` appends to: the active one, or the one it
      starts under `freshId` when none is active. */
  function Target(st: Store, freshId: ChatId): ChatId {
    if st.current.Some? then st.current.value else freshId
  }

  /** `addMessage`: appends `{role, text}` to the active chat, starting a
      new chat first when none is active. The first message of a chat,
      when it comes from the user, gives the chat its title. */
  function AddMessage(st: Store, text: string, role: Role, freshId: ChatId, now: int): (r: Store)
    requires Valid(st)
    ensures Valid(r)
    ensures r.current == Some(Target(st, freshId))
    ensures r.chats.Keys == st.chats.Keys + {Target(st, freshId)}
    ensures var a := Target(st, freshId);
            var before := if st.current.Some? then st.chats[a]
                          else Chat(a, DefaultTitle, [], now);
            && r.chats[a].id == before.id
            && r.chats[a].created == before.created
            && r.chats[a].messages == before.messages + [Message(role, text)]
            && (before.messages == [] && role == User ==> r.chats[a].title == ChatTitle.DeriveTitle(text))
            && (r.chats[a].title != before.title ==> before.messages == [] && role == User)
    ensures forall k :: k in st.chats && k != Target(st, freshId) ==> r.chats[k] == st.chats[k]
  {
    var s1 := if st.current.None? then StartNewChat(st, freshId, now) else st;
    var a := s1.current.value;
    var chat := s1.chats[a];
    var messages := chat.messages + [Message(role, text)];
    var title := if |messages| == 1 && role == User then ChatTitle.DeriveTitle(text) else chat.title;
    s1.(chats := s1.chats[a := chat.(messages := messages, title := title)])
  }

  /** `deleteChat`, confirmed branch: removes `id`. When `id` was the
      active chat, a newest remaining chat becomes active, or none when
      no chat remains; otherwise the selection is kept. */
  method DeleteChat(st: Store, id: ChatId) returns (r: Store)
    requires Valid(st)
    ensures Valid(r)
    ensures r.chats == st.chats - {id}
    ensures st.current != Some(id) ==> r.current == st.current
    ensures st.current == Some(id) ==> (r.current.None? <==> r.chats == map[])
    ensures st.current == Some(id) && r.current.Some? ==> IsNewest(r.chats, r.current.value)
  {
    var chats := st.chats - {id};
    if st.current == Some(id) {
      var remaining := ChatsNewestFirst(chats);
      if |remaining| > 0 {
        HeadIsNewest(chats, remaining);
        r := LoadChat(Store(chats, st.current), remaining[0].id);
      } else {
        r := Store(chats, None);
      }
    } else {
      r := st.(chats := chats);
    }
  }

  /** `initialize`: with the chats read at start-up, selects a newest one,
      or none when there are no chats. */
  method Initialize(chats: map<ChatId, Chat>) returns (r: Store)
    requires IdsMatch(chats)
    ensures Valid(r)
    ensures r.chats == chats
    ensures r.current.None? <==> chats == map[]
    ensures r.current.Some? ==> IsNewest(chats, r.current.value)
  {
    if |chats.Keys| > 0 {
      var sorted := ChatsNewestFirst(chats);
      HeadIsNewest(chats, sorted);
      r := LoadChat(Store(chats, None), sorted[0].id);
    } else {
      r := Store(chats, None);
    }
  }

  /** Appends each of `msgs` in turn to the active chat. */
  function AppendAll(st: Store, msgs: seq<Message>, freshId: ChatId, now: int): (r: Store)
    requires Valid(st) && st.current.Some?
    ensures Valid(r) && r.current == st.current
    decreases |msgs|
  {
    if msgs == [] then st
    else AppendAll(AddMessage(st, msgs[0].text, msgs[0].role, freshId, now), msgs[1..], freshId, now)
  }

  /** Once a chat holds a message its title is fixed: further messages are
      appended in order. */
  lemma TitleFixedAfterFirstMessage(st: Store, msgs: seq<Message>, freshId: ChatId, now: int)
    requires Valid(st) && st.current.Some?
    requires st.chats[st.current.value].messages != []
    ensures var a := st.current.value;
            var r := AppendAll(st, msgs, freshId, now);
            && r.chats[a].title == st.chats[a].title
            && r.chats[a].messages == st.chats[a].messages + msgs
  {
    AppendAllKeepsTitle(st, msgs, freshId, now);
    AppendAllAppends(st, msgs, freshId, now);
  }

  /** The title half of `TitleFixedAfterFirstMessage`. */
  lemma {:induction false} AppendAllKeepsTitle(st: Store, msgs: seq<Message>, freshId: ChatId, now: int)
    requires Valid(st) && st.current.Some?
    requires st.chats[st.current.value].messages != []
    ensures var a := st.current.value;
            AppendAll(st, msgs, freshId, now).chats[a].title == st.chats[a].title
    decreases |msgs|
  {
    if msgs != [] {
      var s1 := AddMessage(st, msgs[0].text, msgs[0].role, freshId, now);
      AddToStartedChat(st, msgs[0], freshId, now);
      AppendAllKeepsTitle(s1, msgs[1..], freshId, now);
      assert AppendAll(st, msgs, freshId, now) == AppendAll(s1, msgs[1..], freshId, now);
    }
  }

  /** The message half of `TitleFixedAfterFirstMessage`; it holds for an
      empty active chat too. */
  lemma {:induction false} AppendAllAppends(st: Store, msgs: seq<Message>, freshId: ChatId, now: int)
    requires Valid(st) && st.current.Some?
    ensures var a := st.current.value;
            AppendAll(st, msgs, freshId, now).chats[a].messages == st.chats[a].messages + msgs
    decreases |msgs|
  {
    if msgs != [] {
      var a := st.current.value;
      var s1 := AddMessage(st, msgs[0].text, msgs[0].role, freshId, now);
      AppendAllUnfold(st, msgs, freshId, now);
      AddToActiveChat(st, msgs[0], freshId, now);
      AppendAllAppends(s1, msgs[1..], freshId, now);
      ConcatFirst(st.chats[a].messages, msgs);
    }
  }

  /** Appending to the active chat adds no chat and changes no other. */
  lemma {:induction false} AppendAllKeepsOthers(st: Store, msgs: seq<Message>, freshId: ChatId, now: int)
    requires Valid(st) && st.current.Some?
    ensures var r := AppendAll(st, msgs, freshId, now);
            && r.chats.Keys == st.chats.Keys
            && (forall k :: k in st.chats && k != st.current.value ==> r.chats[k] == st.chats[k])
    decreases |msgs|
  {
    if msgs != [] {
      var s1 := AddMessage(st, msgs[0].text, msgs[0].role, freshId, now);
      assert Target(st, freshId) == st.current.value;
      AppendAllKeepsOthers(s1, msgs[1..], freshId, now);
      assert AppendAll(st, msgs, freshId, now) == AppendAll(s1, msgs[1..], freshId, now);
    }
  }

  /** One step of `AppendAll`. */
  lemma AppendAllUnfold(st: Store, msgs: seq<Message>, freshId: ChatId, now: int)
    requires Valid(st) && st.current.Some? && msgs != []
    ensures AppendAll(st, msgs, freshId, now)
            == AppendAll(AddMessage(st, msgs[0].text, msgs[0].role, freshId, now), msgs[1..], freshId, now)
  {
  }

  /** Appending the first element and then the rest appends the whole. */
  lemma ConcatFirst<T>(xs: seq<T>, ys: seq<T>)
    requires ys != []
    ensures (xs + [ys[0]]) + ys[1..] == xs + ys
  {
    assert ys == [ys[0]] + ys[1..];
  }

  /** One message added to the active chat lands at its end. */
  lemma AddToActiveChat(st: Store, msg: Message, freshId: ChatId, now: int)
    requires Valid(st) && st.current.Some?
    ensures var a := st.current.value;
            var r := AddMessage(st, msg.text, msg.role, freshId, now);
            && r.current == st.current
            && r.chats[a].messages == st.chats[a].messages + [msg]
  {
    assert Target(st, freshId) == st.current.value;
  }

  /** One message added to an active chat that already has messages. */
  lemma AddToStartedChat(st: Store, msg: Message, freshId: ChatId, now: int)
    requires Valid(st) && st.current.Some?
    requires st.chats[st.current.value].messages != []
    ensures var a := st.current.value;
            var r := AddMessage(st, msg.text, msg.role, freshId, now);
            && r.current == st.current
            && r.chats[a].title == st.chats[a].title
            && r.chats[a].messages == st.chats[a].messages + [msg]
  {
    assert Target(st, freshId) == st.current.value;
  }

  /** A chat whose first message comes from the assistant keeps the title
      it had while empty, whatever follows: "New Chat" for a chat started
      by `addMessage` itself, and the stored title for an active chat that
      had no messages yet. */
  lemma AssistantFirstKeepsTitle(st: Store, reply: string, msgs: seq<Message>, freshId: ChatId, now: int)
    requires Valid(st)
    requires st.current.Some? ==> st.chats[st.current.value].messages == []
    ensures var a := Target(st, freshId);
            var s1 := AddMessage(st, reply, Assistant, freshId, now);
            AppendAll(s1, msgs, freshId, now).chats[a].title
              == (if st.current.Some? then st.chats[a].title else DefaultTitle)
  {
    var s1 := AddMessage(st, reply, Assistant, freshId, now);
    TitleFixedAfterFirstMessage(s1, msgs, freshId, now);
  }

  /** A chat opened with `startNewChat` whose first message is a reply
      keeps the title "New Chat" whatever follows. */
  lemma RepliedNewChatKeepsDefaultTitle(st: Store, id: ChatId, created: int, reply: string, msgs: seq<Message>, freshId: ChatId, now: int)
    requires IdsMatch(st.chats)
    ensures var s0 := StartNewChat(st, id, created);
            var s1 := AddMessage(s0, reply, Assistant, freshId, now);
            AppendAll(s1, msgs, freshId, now).chats[id].title == DefaultTitle
  {
    AssistantFirstKeepsTitle(StartNewChat(st, id, created), reply, msgs, freshId, now);
  }
}
