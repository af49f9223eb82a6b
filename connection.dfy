/**
 * The Socket.IO side of the chat client: the events it emits and the
 * reaction of each of its `socket.on` handlers, as one table. A reaction may
 * set the connection-status indicator, display a node in the message log and
 * emit one event, in that order.
 */
module Connection {
  import opened Options
  import opened JsString
  import opened Render
  import opened Html

  /** An event the client emits on the socket. */
  datatype Outbound =
    | MessageEvent(message: string, username: string, timestamp: string)
    | GetUsers

  /**
   * An event the socket delivers to the client. The arguments the handlers
   * only log (the disconnect reason, the connect_error error object, the
   * user_list payload) are not carried. The object handed to `response`,
   * `status` and `error` is `None` when it is undefined or null: reading a
   * field of it then throws, and the handler displays nothing.
   */
  datatype SocketEvent =
    | Connect
    | Disconnect
    | ReconnectAttempt(attemptNumber: int)
    | Reconnect
    | ReconnectFailed
    | Response(data: Option<Payload>)
    | Status(data: Option<Payload>)
    | UserList
    | Error(error: Option<Payload>)
    | ConnectError

  /** The suffix `updateConnectionStatus` adds to the indicator's class. */
  const Connected := ""
  const Disconnected := "disconnected"
  const Connecting := "connecting"

  /** The token every class of the indicator carries. */
  const StatusClassToken := "connection-status"
  const StatusClassBase := StatusClassToken + " "

  /** The class `updateConnectionStatus(status)` gives the indicator. */
  function StatusClassName(status: string): string
  {
    StatusClassBase + status
  }

  lemma StatusClassTokenIsOneWord()
    ensures HasNoAsciiWhiteSpace(StatusClassToken)
  {
  }

  /**
   * The indicator's class attribute holds the token `connection-status`
   * followed by the tokens of the status word.
   */
  lemma StatusClassTokens(status: string)
    ensures SplitOnAsciiWhiteSpace(StatusClassName(status)) ==
      [StatusClassToken] + SplitOnAsciiWhiteSpace(status)
    ensures HasNoAsciiWhiteSpace(status) ==>
      SplitOnAsciiWhiteSpace(StatusClassName(status)) == [StatusClassToken] + (if status == [] then [] else [status])
  {
    StatusClassTokenIsOneWord();
    SplitWordThenSpace(StatusClassToken, status);
    if HasNoAsciiWhiteSpace(status) {
      SplitSingleWord(status);
    }
  }

  /**
   * Each status the handlers pass is a single class token (or none, for a
   * connected socket), so the indicator carries exactly `connection-status`
   * plus that token.
   */
  lemma KnownStatusClasses(status: string)
    requires status == Connected || status == Disconnected || status == Connecting
    ensures SplitOnAsciiWhiteSpace(StatusClassName(status)) ==
      if status == Connected then [StatusClassToken] else [StatusClassToken, status]
  {
    assert HasNoAsciiWhiteSpace(status);
    StatusClassTokens(status);
  }

  const ConnectedNotice := "서버에 연결되었습니다! 채팅을 시작하세요. 🎉"
  const DisconnectedNotice := "서버와의 연결이 끊어졌습니다. 재연결을 시도합니다... 🔄"
  const AttemptOpen := "재연결 시도 중... ("
  const AttemptClose := "번째)"
  const ReconnectedNotice := "서버에 다시 연결되었습니다! 💚"
  const ReconnectFailedNotice := "서버 재연결에 실패했습니다. 페이지를 새로고침해주세요. ❌"
  const ErrorFallback := "헉... 알 수 없는 오류!."
  const ConnectErrorNotice := "서버 연결 안돼네ㅠㅠ. 잠시 후 다시 시도해보자!"

  /** A `displayMessage(data, isStatus)` call. */
  datatype Display = Display(data: Payload, isStatus: bool)

  /** `displayMessage({ msg: text }, true)`. */
  function Notice(text: string): Display {
    Display(Payload(Some(text), None, None, None, None), true)
  }

  /** The text of the notice for reconnection attempt `n`. */
  function AttemptNotice(n: int): string {
    AttemptOpen + IntToString(n) + AttemptClose
  }

  datatype Reaction = Reaction(status: Option<string>, display: Option<Display>, emit: Option<Outbound>)

  /** What the handler registered for `e` does. */
  function React(e: SocketEvent): Reaction
  {
    match e
    case Connect => Reaction(Some(Connected), Some(Notice(ConnectedNotice)), Some(GetUsers))
    case Disconnect => Reaction(Some(Disconnected), Some(Notice(DisconnectedNotice)), None)
    case ReconnectAttempt(n) => Reaction(Some(Connecting), Some(Notice(AttemptNotice(n))), None)
    case Reconnect => Reaction(Some(Connected), Some(Notice(ReconnectedNotice)), Some(GetUsers))
    case ReconnectFailed => Reaction(Some(Disconnected), Some(Notice(ReconnectFailedNotice)), None)
    case Response(data) =>
      Reaction(None, if data.Some? then Some(Display(data.value, false)) else None, None)
    case Status(data) =>
      Reaction(None, if data.Some? then Some(Display(data.value, true)) else None, None)
    case UserList => Reaction(None, None, None)
    case Error(error) =>
      var msg := if error.Some? then error.value.msg else None;
      Reaction(None, if error.Some? then Some(Notice(if IsTruthyString(msg) then msg.value else ErrorFallback)) else None, None)
    case ConnectError => Reaction(Some(Disconnected), Some(Notice(ConnectErrorNotice)), None)
  }

  /** The handler table, event by event. */
  lemma ReactTable(e: SocketEvent)
    // connect and reconnect mark the indicator connected and ask for the user list
    ensures React(e).status == Some(Connected) <==> e.Connect? || e.Reconnect?
    ensures React(e).emit.Some? <==> e.Connect? || e.Reconnect?
    ensures React(e).emit.Some? ==> React(e).emit.value == GetUsers
    // disconnect, reconnect_failed and connect_error mark it disconnected
    ensures React(e).status == Some(Disconnected) <==> e.Disconnect? || e.ReconnectFailed? || e.ConnectError?
    // a reconnection attempt marks it connecting and its notice names the attempt
    ensures React(e).status == Some(Connecting) <==> e.ReconnectAttempt?
    ensures e.ReconnectAttempt? ==> React(e).display == Some(Notice(AttemptNotice(e.attemptNumber)))
    // incoming messages, status and error events leave the indicator alone
    ensures React(e).status.None? <==> e.Response? || e.Status? || e.UserList? || e.Error?
    ensures e.Response? && e.data.Some? ==> React(e).display == Some(Display(e.data.value, false))
    ensures e.Status? && e.data.Some? ==> React(e).display == Some(Display(e.data.value, true))
    ensures e.Error? && e.error.Some? ==>
      React(e).display == Some(Notice(if IsTruthyString(e.error.value.msg) then e.error.value.msg.value else ErrorFallback))
    // every event displays exactly one node, except user_list and a handler whose argument is missing
    ensures React(e).display.None? <==>
      e.UserList? || ((e.Response? || e.Status?) && e.data.None?) || (e.Error? && e.error.None?)
    ensures e.ReconnectFailed? ==> React(e).display == Some(Notice(ReconnectFailedNotice))
  {
  }

  /** The attempt number can be read back from the reconnection notice. */
  lemma AttemptNoticeShowsNumber(n: int)
    ensures var t := AttemptNotice(n);
      && |AttemptOpen| + |AttemptClose| <= |t|
      && t[..|AttemptOpen|] == AttemptOpen && t[|t| - |AttemptClose|..] == AttemptClose
      && IsIntLiteral(t[|AttemptOpen|..|t| - |AttemptClose|])
      && ParseInt(t[|AttemptOpen|..|t| - |AttemptClose|]) == n
  {
    var t := AttemptNotice(n);
    assert t[|AttemptOpen|..|t| - |AttemptClose|] == IntToString(n);
    IntToStringRoundTrip(n);
  }
}
