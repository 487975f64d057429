/** `sendMessage` (script.js lines 70-92) without its rendering: the guard
    on the trimmed input and the connection, the HTML stored for the user's
    message, and the text put on the socket. */
module Send {
  import opened ChatModel
  import HtmlEscape
  import ChatTitle
  import ChatStore

  /** `ws.readyState`, with `NoSocket` for `ws === null`. */
  datatype Socket = NoSocket | Connecting | Open | Closing | Closed

  /** The script's `isConnected` flag and its socket. */
  datatype Connection = Connection(isConnected: bool, socket: Socket)

  /** The characters `String.prototype.trim` removes: ECMAScript's
      WhiteSpace and LineTerminator code points. */
  predicate IsJsSpace(c: char) {
    var n := c as int;
    || n == 0x09 || n == 0x0A || n == 0x0B || n == 0x0C || n == 0x0D || n == 0x20
    || n == 0xA0 || n == 0x1680 || (0x2000 <= n <= 0x200A)
    || n == 0x2028 || n == 0x2029 || n == 0x202F || n == 0x205F || n == 0x3000 || n == 0xFEFF
  }

  /** Index of the first non-space character of `s` at or after `from`,
      or `|s|`. */
  function SkipSpace(s: string, from: nat): (k: nat)
    requires from <= |s|
    ensures from <= k <= |s|
    ensures forall j :: from <= j < k ==> IsJsSpace(s[j])
    ensures k < |s| ==> !IsJsSpace(s[k])
    decreases |s| - from
  {
    if from == |s| || !IsJsSpace(s[from]) then from else SkipSpace(s, from + 1)
  }

  /** The end of `s[lo..hi]` once its trailing white space is dropped. */
  function SkipSpaceBack(s: string, lo: nat, hi: nat): (k: nat)
    requires lo <= hi <= |s|
    ensures lo <= k <= hi
    ensures forall j :: k <= j < hi ==> IsJsSpace(s[j])
    ensures k > lo ==> !IsJsSpace(s[k - 1])
    decreases hi
  {
    if hi == lo || !IsJsSpace(s[hi - 1]) then hi else SkipSpaceBack(s, lo, hi - 1)
  }

  /** `String.prototype.trim`: the part of `s` between its leading and
      trailing white space. */
  function Trim(s: string): (r: string)
    ensures exists i :: TrimmedAt(s, r, i)
    ensures r != [] ==> !IsJsSpace(r[0]) && !IsJsSpace(r[|r| - 1])
    ensures r == [] <==> forall j :: 0 <= j < |s| ==> IsJsSpace(s[j])
  {
    var i := SkipSpace(s, 0);
    var k := SkipSpaceBack(s, i, |s|);
    var r := s[i..k];
    assert TrimmedAt(s, r, i);
    assert r != [] ==> r[0] == s[i] && r[|r| - 1] == s[k - 1];
    r
  }

  /** `r` is the piece of `s` starting at `i`, with only white space on
      either side of it. */
  predicate TrimmedAt(s: string, r: string, i: nat) {
    && i + |r| <= |s| && r == s[i..i + |r|]
    && (forall j :: 0 <= j < i ==> IsJsSpace(s[j]))
    && (forall j :: i + |r| <= j < |s| ==> IsJsSpace(s[j]))
  }

  /** `escapeHtml(message).replace(/\n/g, '<br>')`: the HTML stored for a
      message the user types. */
  function UserMessageHtml(message: string): (html: string)
    ensures '"' !in html && '\'' !in html && '\n' !in html
  {
    HtmlEscape.EscapeHtmlNoMarkup(message);
    BreakLines(HtmlEscape.EscapeHtml(message))
  }

  /** `.replace(/\n/g, '<br>')`: no line feed is left, and no quote is
      introduced. */
  function BreakLines(s: string): (r: string)
    ensures '\n' !in r
    ensures '"' !in s ==> '"' !in r
    ensures '\'' !in s ==> '\'' !in r
  {
    HtmlEscape.ReplaceKeepsAbsent(s, '\n', "<br>", '"');
    HtmlEscape.ReplaceKeepsAbsent(s, '\n', "<br>", '\'');
    HtmlEscape.ReplaceChar(s, '\n', "<br>")
  }

  datatype SendOutcome = Ignored | Sent(store: Store, wire: string)

  /** `sendMessage`: ignored for a blank input, or unless the flag is set
      and the socket is open; otherwise the trimmed input is stored, as
      HTML, as a user message (starting a chat if none is active) and the
      trimmed input itself is what goes on the socket. */
  function SendMessage(st: Store, conn: Connection, input: string, freshId: ChatId, now: int): (o: SendOutcome)
    requires Valid(st)
    ensures o.Ignored? <==> (forall j :: 0 <= j < |input| ==> IsJsSpace(input[j])) || !conn.isConnected || conn.socket != Open
    ensures o.Sent? ==> o.wire == Trim(input) && o.wire != []
    ensures o.Sent? ==> Valid(o.store)
    ensures o.Sent? ==> o.store == ChatStore.AddMessage(st, UserMessageHtml(o.wire), User, freshId, now)
  {
    var message := Trim(input);
    if message == [] || !conn.isConnected || conn.socket != Open then Ignored
    else Sent(ChatStore.AddMessage(st, UserMessageHtml(message), User, freshId, now), message)
  }

  /** Line breaks dropped: `ReplaceChar(s, '\n', "")`. */
  function DropNewlines(s: string): (r: string)
    ensures '\n' !in r
  {
    HtmlEscape.ReplaceChar(s, '\n', "")
  }

  /** Reference definition of `UserMessageHtml`, character by character. */
  function UserChars(m: string): string
    decreases |m|
  {
    if m == [] then []
    else (if m[0] == '\n' then "<br>" else HtmlEscape.EscapeChar(m[0])) + UserChars(m[1..])
  }

  lemma {:induction false} ReplaceNewlineInEscaped(m: string)
    ensures HtmlEscape.ReplaceChar(HtmlEscape.EscapeChars(m), '\n', "<br>") == UserChars(m)
    decreases |m|
  {
    if m != [] {
      var c := m[0];
      var e := HtmlEscape.EscapeChar(c);
      HtmlEscape.ReplaceCharAppend(e, HtmlEscape.EscapeChars(m[1..]), '\n', "<br>");
      if c == '\n' {
        HtmlEscape.ReplaceCharOne(c, '\n', "<br>");
      } else {
        assert '\n' !in e;
      }
      ReplaceNewlineInEscaped(m[1..]);
    }
  }

  /** Stripping passes over a prefix that opens no tag. */
  lemma {:induction false} StripTagsPlainPrefix(a: string, t: string)
    requires '<' !in a
    ensures ChatTitle.StripTags(a + t) == a + ChatTitle.StripTags(t)
    decreases |a|
  {
    if a != [] {
      var s := a + t;
      assert s[0] == a[0] && s[1..] == a[1..] + t;
      assert !ChatTitle.StartsWithTag(s);
      assert ChatTitle.StripTags(s) == [s[0]] + ChatTitle.StripTags(s[1..]);
      StripTagsPlainPrefix(a[1..], t);
      assert a + ChatTitle.StripTags(t) == [a[0]] + (a[1..] + ChatTitle.StripTags(t));
    } else {
      assert a + t == t;
    }
  }

  lemma {:induction false} StripUserChars(m: string)
    ensures ChatTitle.StripTags(UserChars(m)) == HtmlEscape.EscapeChars(DropNewlines(m))
    decreases |m|
  {
    if m != [] {
      StripUserChars(m[1..]);
      DropNewlinesCons(m);
      if m[0] == '\n' {
        assert DropNewlines(m) == DropNewlines(m[1..]);
        StripUserCharsBreak(m);
      } else {
        StripUserCharsOther(m);
      }
    }
  }

  lemma StripUserCharsBreak(m: string)
    requires m != [] && m[0] == '\n'
    requires ChatTitle.StripTags(UserChars(m[1..])) == HtmlEscape.EscapeChars(DropNewlines(m[1..]))
    requires DropNewlines(m) == DropNewlines(m[1..])
    ensures ChatTitle.StripTags(UserChars(m)) == HtmlEscape.EscapeChars(DropNewlines(m))
  {
    var x := UserChars(m[1..]);
    var u := UserChars(m);
    assert u == "<br>" + x;
    StripBreak(x);
    assert ChatTitle.StripTags(u) == ChatTitle.StripTags(x);
  }

  lemma StripUserCharsOther(m: string)
    requires m != [] && m[0] != '\n'
    requires ChatTitle.StripTags(UserChars(m[1..])) == HtmlEscape.EscapeChars(DropNewlines(m[1..]))
    requires DropNewlines(m) == [m[0]] + DropNewlines(m[1..])
    ensures ChatTitle.StripTags(UserChars(m)) == HtmlEscape.EscapeChars(DropNewlines(m))
  {
    var e := HtmlEscape.EscapeChar(m[0]);
    var x := UserChars(m[1..]);
    HtmlEscape.EscapeCharNoMarkup(m[0]);
    UserCharsCons(m);
    StripTagsPlainPrefix(e, x);
    EscapeCharsCons(m[0], DropNewlines(m[1..]));
  }

  lemma UserCharsCons(m: string)
    requires m != [] && m[0] != '\n'
    ensures UserChars(m) == HtmlEscape.EscapeChar(m[0]) + UserChars(m[1..])
  {
  }

  lemma EscapeCharsCons(c: char, t: string)
    ensures HtmlEscape.EscapeChars([c] + t) == HtmlEscape.EscapeChar(c) + HtmlEscape.EscapeChars(t)
  {
    assert ([c] + t)[0] == c && ([c] + t)[1..] == t;
  }

  lemma DropNewlinesCons(m: string)
    requires m != []
    ensures DropNewlines(m) == (if m[0] == '\n' then [] else [m[0]]) + DropNewlines(m[1..])
  {
    assert m == [m[0]] + m[1..];
    HtmlEscape.ReplaceCharAppend([m[0]], m[1..], '\n', "");
    HtmlEscape.ReplaceCharOne(m[0], '\n', "");
  }

  lemma StripBreak(rest: string)
    ensures ChatTitle.StripTags("<br>" + rest) == ChatTitle.StripTags(rest)
  {
    ChatTitle.StripLeadingTag("br", rest);
    assert "<" + "br" + ">" + rest == "<br>" + rest;
  }

  /** The markup a typed message gains is exactly the `<br>` for each line
      break, so stripping tags gives back the escaped text without its line
      breaks: a chat's title shows the entities (`&lt;`, `&amp;`, …) and
      not the characters typed. */
  lemma StripUserMessageHtml(m: string)
    ensures ChatTitle.StripTags(UserMessageHtml(m)) == HtmlEscape.EscapeHtml(DropNewlines(m))
  {
    HtmlEscape.EscapeHtmlIsPerCharacter(m);
    ReplaceNewlineInEscaped(m);
    StripUserChars(m);
    HtmlEscape.EscapeHtmlIsPerCharacter(DropNewlines(m));
  }

  /** A first message typed with no chat active titles the new chat with
      the first 35 characters of its escaped text, entities included and
      line feeds dropped; `...` follows when the stored HTML, `<br>` tags
      and entities included, is longer than 35 characters. */
  lemma FirstSentMessageTitle(st: Store, conn: Connection, input: string, freshId: ChatId, now: int)
    requires Valid(st) && st.current.None?
    requires conn.isConnected && conn.socket == Open && Trim(input) != []
    ensures var o := SendMessage(st, conn, input, freshId, now);
            var m := Trim(input);
            && o.Sent?
            && o.store.chats[freshId].title
               == ChatTitle.Take(HtmlEscape.EscapeHtml(DropNewlines(m)), ChatTitle.TitleWidth)
                  + (if |UserMessageHtml(m)| > ChatTitle.TitleWidth then ChatTitle.Ellipsis else "")
  {
    var m := Trim(input);
    var html := UserMessageHtml(m);
    var s1 := ChatStore.AddMessage(st, html, User, freshId, now);
    assert SendMessage(st, conn, input, freshId, now) == Sent(s1, m);
    assert ChatStore.Target(st, freshId) == freshId;
    assert s1.chats[freshId].title == ChatTitle.DeriveTitle(html);
    ChatTitle.DeriveTitleParts(html);
    StripUserMessageHtml(m);
  }
}
