/** Picking the reply text out of the assistant service's JSON: in the
    socket's message handler (script.js lines 20-26) and for an image
    upload (lines 138-149). Parsing itself is not modelled: a handler
    receives the parsed value, or `None` when `JSON.parse` threw. */
module ReplyText {
  import opened Wrappers

  /** A value `JSON.parse` can produce. */
  datatype Json =
    | JNull
    | JBool(b: bool)
    | JNum(n: real)
    | JStr(s: string)
    | JArr(items: seq<Json>)
    | JObj(fields: map<string, Json>)

  const ParseFallback := "Could not parse response."
  const MalformedReply := "Error: Malformed response from server."
  const UploadFallback := "No description found."

  /** `v?.key` for the names read here (`candidates`, `content`, `parts`,
      `text`): none is an array index, `length`, or inherited, so only an
      object's own field answers; `null` and `undefined` short-circuit. */
  function Field(v: Option<Json>, key: string): Option<Json> {
    match v
    case Some(JObj(m)) => if key in m then Some(m[key]) else None
    case _ => None
  }

  /** `v?.[0]`: an array's first element, a string's first character, an
      object's field `"0"`; `undefined` otherwise. */
  function First(v: Option<Json>): Option<Json> {
    match v
    case Some(JArr(a)) => if a == [] then None else Some(a[0])
    case Some(JStr(s)) => if s == [] then None else Some(JStr([s[0]]))
    case Some(JObj(m)) => if "0" in m then Some(m["0"]) else None
    case _ => None
  }

  /** `d.candidates?.[0]?.content?.parts?.[0]?.text` */
  function TextPath(d: Json): (r: Option<Json>)
    ensures r.Some? ==> d.JObj? && "candidates" in d.fields
  {
    Field(First(Field(Field(First(Field(Some(d), "candidates")), "content"), "parts")), "text")
  }

  /** JavaScript truthiness; `undefined` is falsy. JSON numbers have no
      NaN, so only zero is a falsy number. */
  predicate Truthy(v: Option<Json>) {
    match v
    case None => false
    case Some(JNull) => false
    case Some(JBool(b)) => b
    case Some(JNum(n)) => n != 0.0
    case Some(JStr(s)) => s != []
    case Some(_) => true
  }

  /** `TextPath(d) || fallback`. */
  function TextOr(d: Json, fallback: string): Json {
    var t := TextPath(d);
    if Truthy(t) then t.value else JStr(fallback)
  }

  /** The socket message handler's reply: the value at the text path when
      it is truthy, "Could not parse response." when it is missing or
      falsy (an empty string included, as `||` treats it), and the
      malformed-response error when parsing failed or the payload is
      `null` (reading `.candidates` of `null` throws). */
  function SocketReply(parsed: Option<Json>): (r: Json)
    ensures Truthy(Some(r))
    ensures parsed.None? || parsed == Some(JNull) ==> r == JStr(MalformedReply)
    ensures parsed.Some? && parsed.value != JNull ==>
              (Truthy(TextPath(parsed.value)) ==> r == TextPath(parsed.value).value)
              && (!Truthy(TextPath(parsed.value)) ==> r == JStr(ParseFallback))
  {
    match parsed
    case None => JStr(MalformedReply)
    case Some(JNull) => JStr(MalformedReply)
    case Some(d) => TextOr(d, ParseFallback)
  }

  /** The upload handler's reply. `success` is the truthiness of
      `data.success`, `error` the text `${data.error}` renders to, `raw` is
      `data.aiResponse` and `parsed` its parse (`None` when that threw). The
      path read here starts with `parsed?.`, so a `null` payload falls back
      instead of throwing. */
  function UploadReply(success: bool, parsed: Option<Json>, raw: Json, error: string): Json {
    if !success then JStr("Error: " + error)
    else match parsed
      case None => raw
      case Some(d) => TextOr(d, UploadFallback)
  }

  /** `d` is a reply whose `candidates[0].content.parts[0].text` holds `t`:
      its first candidate is an object with a `content` object whose first
      part is an object with field `text`. Every other field, candidate and
      part may be anything. */
  predicate CarriesText(d: Json, t: Json) {
    d.JObj? && "candidates" in d.fields &&
    var cs := d.fields["candidates"];
    cs.JArr? && cs.items != [] &&
    var c0 := cs.items[0];
    c0.JObj? && "content" in c0.fields &&
    var content := c0.fields["content"];
    content.JObj? && "parts" in content.fields &&
    var ps := content.fields["parts"];
    ps.JArr? && ps.items != [] &&
    var p0 := ps.items[0];
    p0.JObj? && "text" in p0.fields && p0.fields["text"] == t
  }

  /** The text path reads back the text of every reply that carries one. */
  lemma TextPathOfReply(d: Json, t: Json)
    ensures CarriesText(d, t) ==> TextPath(d) == Some(t)
  {
  }

  /** With a non-empty fallback, `||` always yields a truthy value. */
  lemma TextOrTruthy(d: Json, fallback: string)
    requires fallback != []
    ensures Truthy(Some(TextOr(d, fallback)))
  {
  }

  /** The upload handler shows a truthy reply unless `aiResponse` failed to
      parse, in which case the raw value is shown as it is. */
  lemma UploadReplyTruthy(success: bool, parsed: Option<Json>, raw: Json, error: string)
    ensures !success || parsed.Some? ==> Truthy(Some(UploadReply(success, parsed, raw, error)))
  {
    if success && parsed.Some? {
      TextOrTruthy(parsed.value, UploadFallback);
    }
  }

  /** A reply text reaches the chat through the socket handler when it is
      non-empty; an empty one turns into the fallback. */
  lemma SocketReplyOfReply(d: Json, text: string)
    ensures CarriesText(d, JStr(text)) && text != [] ==> SocketReply(Some(d)) == JStr(text)
    ensures CarriesText(d, JStr(text)) && text == [] ==> SocketReply(Some(d)) == JStr(ParseFallback)
  {
    TextPathOfReply(d, JStr(text));
  }

  /** An uploaded image's description reaches the chat when it is
      non-empty; an empty one turns into the upload fallback. */
  lemma UploadReplyOfReply(d: Json, text: string, raw: Json, error: string)
    ensures CarriesText(d, JStr(text)) && text != [] ==> UploadReply(true, Some(d), raw, error) == JStr(text)
    ensures CarriesText(d, JStr(text)) && text == [] ==> UploadReply(true, Some(d), raw, error) == JStr(UploadFallback)
  {
    TextPathOfReply(d, JStr(text));
  }

  /** A `null` payload is handled differently by the two handlers: the
      upload path starts with `parsed?.` and falls back, while the socket
      path reads `data.candidates` and throws into the malformed-response
      error. */
  lemma NullPayloadHandlersDiffer(raw: Json, error: string)
    ensures UploadReply(true, Some(JNull), raw, error) == JStr(UploadFallback)
    ensures SocketReply(Some(JNull)) == JStr(MalformedReply)
    ensures UploadReply(true, Some(JNull), raw, error) != SocketReply(Some(JNull))
  {
    assert MalformedReply[0] != UploadFallback[0];
  }
}
