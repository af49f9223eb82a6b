/**
 * What `displayMessage(data, isStatus)` puts into a new log node. A status
 * node (classes `message status`) shows the escaped `msg` and, only when
 * `user_count` is truthy, a suffix naming the number of connected users. A
 * chat node (class `message`) shows the escaped `username` and `message`
 * and, only when `timestamp` is truthy, a timestamp element whose content is
 * the timestamp string inserted as markup, without escaping.
 */
module Render {
  import opened Options
  import opened JsString
  import opened Html

  /**
   * The `data` object handed to `displayMessage`. Every field may be absent;
   * a status payload uses `msg` and `user_count`, a chat payload `username`,
   * `message` and `timestamp`.
   */
  datatype Payload = Payload(
    msg: Option<string>,
    userCount: Option<int>,
    username: Option<string>,
    message: Option<string>,
    timestamp: Option<string>)

  /** A JavaScript string is truthy when it is present and not empty. */
  predicate IsTruthyString(v: Option<string>) {
    v.Some? && v.value != []
  }

  /** A JavaScript (integral) number is truthy when it is present and not zero. */
  predicate IsTruthyNumber(v: Option<int>) {
    v.Some? && v.value != 0
  }

  /**
   * The interpolated parts of a rendered node's markup (the fixed
   * template text and its layout white space are not recorded).
   */
  datatype Node =
    | StatusNode(msgHtml: string, countHtml: string)
    | ChatNode(usernameHtml: string, messageHtml: string, timestampHtml: Option<string>)

  const CountOpen := " (현재 "
  const CountClose := "명 접속)"

  /** The user-count suffix of a status node. */
  function UserCountText(userCount: Option<int>): (r: string)
    ensures r == [] <==> !IsTruthyNumber(userCount)
    ensures IsTruthyNumber(userCount) ==>
      && |CountOpen| + |CountClose| <= |r|
      && r[..|CountOpen|] == CountOpen && r[|r| - |CountClose|..] == CountClose
      && IsIntLiteral(r[|CountOpen|..|r| - |CountClose|])
      && ParseInt(r[|CountOpen|..|r| - |CountClose|]) == userCount.value
  {
    if IsTruthyNumber(userCount) then
      var digits := IntToString(userCount.value);
      var r := CountOpen + digits + CountClose;
      assert r[|CountOpen|..|r| - |CountClose|] == digits;
      IntToStringRoundTrip(userCount.value);
      r
    else []
  }

  /** The node `displayMessage(data, isStatus)` creates. */
  function RenderNode(data: Payload, isStatus: bool): (n: Node)
    ensures n.StatusNode? <==> isStatus
    // every string field taken from the payload except the timestamp is escaped: it cannot open a tag
    ensures n.StatusNode? ==> n.msgHtml == EscapeHtml(data.msg) && IsMarkupFree(n.msgHtml)
    // the user count, a number, is written as the suffix that names it
    ensures n.StatusNode? ==> n.countHtml == UserCountText(data.userCount)
    ensures n.StatusNode? ==> (n.countHtml != [] <==> IsTruthyNumber(data.userCount))
    ensures n.ChatNode? ==>
      && n.usernameHtml == EscapeHtml(data.username) && IsMarkupFree(n.usernameHtml)
      && n.messageHtml == EscapeHtml(data.message) && IsMarkupFree(n.messageHtml)
    // the timestamp element exists only for a truthy timestamp, and holds it verbatim
    ensures n.ChatNode? ==> (n.timestampHtml.Some? <==> IsTruthyString(data.timestamp))
    ensures n.ChatNode? && n.timestampHtml.Some? ==> n.timestampHtml.value == data.timestamp.value
  {
    if isStatus then StatusNode(EscapeHtml(data.msg), UserCountText(data.userCount))
    else
      ChatNode(
        EscapeHtml(data.username),
        EscapeHtml(data.message),
        if IsTruthyString(data.timestamp) then Some(data.timestamp.value) else None)
  }

  /**
   * A reader of the rendered node sees the payload's text: the message, the
   * sender and the status text come back from the escaped markup once
   * `innerHTML` parses it, with only newlines normalised and U+0000 dropped
   * (an absent field shows as nothing).
   */
  lemma RenderShowsPayloadText(data: Payload, isStatus: bool)
    ensures var n := RenderNode(data, isStatus);
      && (n.StatusNode? ==> ParsedText(n.msgHtml) == DropNul(NormalizeNewlines(data.msg.GetOr(""))))
      && (n.ChatNode? ==>
           && ParsedText(n.usernameHtml) == DropNul(NormalizeNewlines(data.username.GetOr("")))
           && ParsedText(n.messageHtml) == DropNul(NormalizeNewlines(data.message.GetOr(""))))
  {
    ParsedEscapeHtml(data.msg);
    ParsedEscapeHtml(data.username);
    ParsedEscapeHtml(data.message);
  }

  /** A chat text without CR or U+0000 is shown exactly as sent. */
  lemma PlainMessageShownAsSent(data: Payload)
    requires data.message.Some? && IsCrFree(data.message.value) && IsNulFree(data.message.value)
    ensures ParsedText(RenderNode(data, false).messageHtml) == data.message.value
  {
    ParsedEscapeHtml(data.message);
  }

  /**
   * A message body such as `<script>x</script>` never becomes markup: its
   * node's message field is free of tag delimiters yet reads back as the
   * literal text. The timestamp, in contrast, is inserted as markup as it is.
   */
  lemma ScriptBodyIsInert(data: Payload)
    requires data.message == Some("<script>x</script>")
    requires data.timestamp == Some("<b>")
    ensures var n := RenderNode(data, false);
      && IsMarkupFree(n.messageHtml) && ParsedText(n.messageHtml) == "<script>x</script>"
      && n.timestampHtml == Some("<b>") && !IsMarkupFree(n.timestampHtml.value)
  {
    PlainMessageShownAsSent(data);
    assert "<b>"[0] == '<';
  }
}
