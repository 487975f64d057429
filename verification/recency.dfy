/** The "newest first" ordering of chats (script.js lines 192, 206, 265):
    `Object.values(chats).sort((a, b) => new Date(b.created) - new Date(a.created))`.
    Chats created at the same instant may come in any order. */
module Recency {
  import opened ChatModel

  /** Creation times never increase along the list. */
  predicate NewestFirst(list: seq<Chat>) {
    forall i, j :: 0 <= i < j < |list| ==> list[i].created >= list[j].created
  }

  /** Inserts `c` before the first chat that is not newer than it. */
  function InsertByRecency(list: seq<Chat>, c: Chat): (r: seq<Chat>)
    requires NewestFirst(list)
    ensures NewestFirst(r)
    ensures multiset(r) == multiset(list) + multiset{c}
    ensures |r| == |list| + 1
    ensures forall x :: x in r <==> x in list || x == c
    decreases |list|
  {
    if list == [] then [c]
    else if c.created >= list[0].created then [c] + list
    else
      var rest := InsertByRecency(list[1..], c);
      PrependNewest(list, c, rest);
      [list[0]] + rest
  }

  /** Putting back the head of a newest-first list in front of the rest
      with `c` inserted, when `c` is older than that head. */
  lemma PrependNewest(list: seq<Chat>, c: Chat, rest: seq<Chat>)
    requires list != [] && NewestFirst(list) && c.created < list[0].created
    requires NewestFirst(rest) && multiset(rest) == multiset(list[1..]) + multiset{c}
    ensures NewestFirst([list[0]] + rest)
    ensures multiset([list[0]] + rest) == multiset(list) + multiset{c}
  {
    assert list == [list[0]] + list[1..];
    forall j | 0 <= j < |rest| ensures list[0].created >= rest[j].created {
      assert rest[j] in multiset(rest);
      assert rest[j] in list[1..] || rest[j] == c;
    }
  }

  /** The chats of the map, each once, newest first. */
  method ChatsNewestFirst(chats: map<ChatId, Chat>) returns (list: seq<Chat>)
    requires IdsMatch(chats)
    ensures |list| == |chats|
    ensures forall x :: x in list ==> x.id in chats && chats[x.id] == x
    ensures forall k :: k in chats ==> chats[k] in list
    ensures NewestFirst(list)
  {
    list := [];
    var rest := chats.Keys;
    while rest != {}
      invariant rest <= chats.Keys
      invariant |list| + |rest| == |chats|
      invariant forall x :: x in list ==> x.id in chats && chats[x.id] == x && x.id !in rest
      invariant forall k :: k in chats && k !in rest ==> chats[k] in list
      invariant NewestFirst(list)
      decreases rest
    {
      var k :| k in rest;
      list := InsertByRecency(list, chats[k]);
      rest := rest - {k};
    }
  }

  /** The head of a non-empty newest-first listing is a newest chat. */
  lemma HeadIsNewest(chats: map<ChatId, Chat>, list: seq<Chat>)
    requires |list| > 0 && NewestFirst(list)
    requires forall x :: x in list ==> x.id in chats && chats[x.id] == x
    requires forall k :: k in chats ==> chats[k] in list
    ensures IsNewest(chats, list[0].id)
  {
    forall j | j in chats ensures chats[j].created <= chats[list[0].id].created {
      var i :| 0 <= i < |list| && list[i] == chats[j];
      if i > 0 {
        assert list[0].created >= list[i].created;
      }
    }
  }
}
