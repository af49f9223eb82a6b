/**
 * The chat client's controller: the state its event handlers share (the
 * current user record, the two input fields, the message log, the
 * connection-status indicator) and the handlers themselves. What the
 * socket sends is recorded as the sequence `sent` of emitted events.
 *
 * `Math.random()` and the clock are parameters: `suffix` is the text
 * `Math.random().toString(36).substr(2, 4)` produced, `now` the text
 * `toLocaleTimeString` produced.
 */
module ChatClient {
  import opened Options
  import opened JsString
  import opened Render
  import opened MessageLog
  import opened Connection

  const MaxNickname: nat := 20
  const MaxMessageLength: nat := 500
  const GuestPrefix := "user"

  predicate IsBase36Digit(c: char) {
    '0' <= c <= '9' || 'a' <= c <= 'z'
  }

  /** A text `Math.random().toString(36).substr(2, 4)` can produce: up to four base-36 digits. */
  predicate IsRandomSuffix(s: string) {
    |s| <= 4 && forall k :: 0 <= k < |s| ==> IsBase36Digit(s[k])
  }

  /** `t.length > 20 ? t.substring(0, 20) : t`. */
  function CapNickname(t: string): (r: string)
    ensures |r| <= MaxNickname && IsPrefix(r, t)
    ensures |t| <= MaxNickname ==> r == t
    ensures |t| > MaxNickname ==> |r| == MaxNickname
  {
    if |t| > MaxNickname then t[..MaxNickname] else t
  }

  datatype NicknameChoice = NicknameChoice(nickname: string, isNicknameSet: bool)

  /** The user record `setUserNickname` leaves for nickname field `input`. */
  function ResolveNickname(input: string, suffix: string): (c: NicknameChoice)
    requires IsRandomSuffix(suffix)
    ensures 1 <= |c.nickname| <= MaxNickname
    // a nickname counts as set exactly when the trimmed field is not empty
    ensures c.isNicknameSet <==> Trim(input) != []
    // then it is the trimmed field cut to its first 20 code units
    ensures c.isNicknameSet ==>
      && IsPrefix(c.nickname, Trim(input))
      && (|Trim(input)| <= MaxNickname ==> c.nickname == Trim(input))
      && (|Trim(input)| > MaxNickname ==> |c.nickname| == MaxNickname)
    // otherwise it is a guest name: "user" and the random suffix, at most 8 long
    ensures !c.isNicknameSet ==> c.nickname == GuestPrefix + suffix && |c.nickname| <= 8
  {
    var t := Trim(input);
    if |t| > 0 then NicknameChoice(CapNickname(t), true)
    else NicknameChoice(GuestPrefix + suffix, false)
  }

  /** The outcome of `sendMessage`'s checks on the message field. */
  datatype Validation =
    | Accepted(text: string)
    | RejectedEmpty    // nothing but white space: focus the field and stop
    | RejectedTooLong  // over 500 code units once trimmed: alert and stop

  /** The checks `sendMessage` makes on the message field `input`. */
  function ValidateMessage(input: string): (v: Validation)
    ensures v.RejectedEmpty? <==> AllWhiteSpace(input)
    ensures v.RejectedTooLong? <==> |Trim(input)| > MaxMessageLength
    ensures v.Accepted? ==>
      && v.text == Trim(input)
      && 1 <= |v.text| <= MaxMessageLength
      && !IsWhiteSpace(v.text[0]) && !IsWhiteSpace(v.text[|v.text| - 1])
  {
    var message := Trim(input);
    if message == [] then RejectedEmpty
    else if |message| > MaxMessageLength then RejectedTooLong
    else Accepted(message)
  }

  /** The part of the controller `sendMessage` reads and writes, besides the nickname field. */
  datatype Composer = Composer(nickname: string, isNicknameSet: bool, messageInput: string, sent: seq<Outbound>)

  datatype SendResult = SendResult(outcome: Validation, after: Composer)

  /**
   * `sendMessage()` on composer state `c`, with nickname field `usernameInput`:
   * a rejected message changes nothing; an accepted one resolves the nickname,
   * emits one `message` event and empties the message field.
   */
  function Send(c: Composer, usernameInput: string, suffix: string, now: string): (res: SendResult)
    requires IsRandomSuffix(suffix)
    ensures res.outcome == ValidateMessage(c.messageInput)
    // a message that fails the checks leaves every part of the state as it was
    ensures !res.outcome.Accepted? ==> res.after == c
    // an accepted one: exactly one event more, the trimmed text sent under the newly resolved nickname
    ensures res.outcome.Accepted? ==>
      && |res.after.sent| == |c.sent| + 1 && res.after.sent[..|c.sent|] == c.sent
      && res.after.sent[|c.sent|] == MessageEvent(Trim(c.messageInput), res.after.nickname, now)
      && 1 <= |Trim(c.messageInput)| <= MaxMessageLength
      && NicknameChoice(res.after.nickname, res.after.isNicknameSet) == ResolveNickname(usernameInput, suffix)
      && res.after.messageInput == ""
  {
    var v := ValidateMessage(c.messageInput);
    if v.Accepted? then
      var choice := ResolveNickname(usernameInput, suffix);
      var event := MessageEvent(v.text, choice.nickname, now);
      SendResult(v, Composer(choice.nickname, choice.isNicknameSet, "", c.sent + [event]))
    else SendResult(v, c)
  }

  /**
   * What the server may rely on for every `message` event this client
   * emits: a trimmed, non-empty text of at most 500 code units and a
   * nickname of 1 to 20 code units.
   */
  predicate IsWellFormedEvent(ev: Outbound) {
    ev.MessageEvent? ==>
      && 1 <= |ev.message| <= MaxMessageLength && Trim(ev.message) == ev.message
      && 1 <= |ev.username| <= MaxNickname
  }

  /** Sending keeps every emitted event well formed. */
  lemma SendKeepsEventsWellFormed(c: Composer, usernameInput: string, suffix: string, now: string)
    requires IsRandomSuffix(suffix)
    requires forall k :: 0 <= k < |c.sent| ==> IsWellFormedEvent(c.sent[k])
    ensures var after := Send(c, usernameInput, suffix, now).after;
      forall k :: 0 <= k < |after.sent| ==> IsWellFormedEvent(after.sent[k])
  {
    var res := Send(c, usernameInput, suffix, now);
    if res.outcome.Accepted? {
      TrimIdempotent(c.messageInput);
      assert forall k :: 0 <= k < |c.sent| ==> res.after.sent[k] == c.sent[k];
    }
  }

  class ChatView {
    /** `currentUser`. */
    var nickname: string
    var isNicknameSet: bool
    /** The values of the nickname field and of the message field. */
    var usernameInput: string
    var messageInput: string
    /** The nodes of the messages container, oldest first. */
    var log: seq<Node>
    /** Whether the page has a connection-status element, and its class. */
    const hasStatusIndicator: bool
    var statusClass: string
    /** Every event emitted on the socket, oldest first. */
    var sent: seq<Outbound>

    ghost predicate Valid()
      reads this
    {
      |log| <= MaxMessages && |nickname| <= MaxNickname
    }

    /** The controller as set up on page load, before any event. */
    constructor (hasStatusIndicator: bool, initialStatusClass: string)
      ensures Valid()
      ensures nickname == "" && !isNicknameSet
      ensures usernameInput == "" && messageInput == ""
      ensures log == [] && sent == []
      ensures this.hasStatusIndicator == hasStatusIndicator && statusClass == initialStatusClass
    {
      nickname, isNicknameSet := "", false;
      usernameInput, messageInput := "", "";
      log, sent := [], [];
      this.hasStatusIndicator := hasStatusIndicator;
      statusClass := initialStatusClass;
    }

    /** The user types into the nickname field. */
    method EditNickname(value: string)
      requires Valid()
      modifies this`usernameInput
      ensures Valid()
      ensures usernameInput == value
    {
      usernameInput := value;
    }

    /** The user types into the message field. */
    method EditMessage(value: string)
      requires Valid()
      modifies this`messageInput
      ensures Valid()
      ensures messageInput == value
    {
      messageInput := value;
    }

    /** `updateConnectionStatus(status)`: only a page with an indicator changes. */
    method UpdateConnectionStatus(status: string)
      requires Valid()
      modifies this`statusClass
      ensures Valid()
      ensures statusClass == if hasStatusIndicator then StatusClassName(status) else old(statusClass)
    {
      if hasStatusIndicator {
        statusClass := StatusClassName(status);
      }
    }

    /** `displayMessage(data, isStatus)`: append the new node, then trim the log to 500. */
    method DisplayMessage(data: Payload, isStatus: bool)
      requires Valid()
      modifies this`log
      ensures Valid()
      ensures log == AppendBounded(old(log), RenderNode(data, isStatus))
    {
      var node := RenderNode(data, isStatus);
      log := log + [node];
      if |log| > MaxMessages {
        log := log[1..];
      }
    }

    /** `setUserNickname()`: resolve the nickname from the field and return it. */
    method SetUserNickname(suffix: string) returns (result: string)
      requires Valid() && IsRandomSuffix(suffix)
      modifies this`nickname, this`isNicknameSet
      ensures Valid()
      ensures NicknameChoice(nickname, isNicknameSet) == ResolveNickname(usernameInput, suffix)
      ensures result == nickname
    {
      var inputNickname := Trim(usernameInput);
      if |inputNickname| > 0 {
        nickname := if |inputNickname| > MaxNickname then inputNickname[..MaxNickname] else inputNickname;
        isNicknameSet := true;
      } else {
        nickname := GuestPrefix + suffix;
        isNicknameSet := false;
      }
      result := nickname;
    }

    /** `sendMessage()`: validate the message field, then send it. */
    method SendMessage(suffix: string, now: string) returns (v: Validation)
      requires Valid() && IsRandomSuffix(suffix)
      modifies this`nickname, this`isNicknameSet, this`messageInput, this`sent
      ensures Valid()
      ensures SendResult(v, Composer(nickname, isNicknameSet, messageInput, sent))
           == Send(Composer(old(nickname), old(isNicknameSet), old(messageInput), old(sent)), usernameInput, suffix, now)
    {
      var message := Trim(messageInput);
      if message == [] {
        return RejectedEmpty;
      }
      if |message| > MaxMessageLength {
        return RejectedTooLong;
      }
      var finalUsername := SetUserNickname(suffix);
      sent := sent + [MessageEvent(message, finalUsername, now)];
      messageInput := "";
      v := Accepted(message);
    }

    /** A key press in the message field: Enter without Shift sends. */
    method OnMessageKeypress(key: string, shiftKey: bool, suffix: string, now: string)
      returns (v: Option<Validation>)
      requires Valid() && IsRandomSuffix(suffix)
      modifies this`nickname, this`isNicknameSet, this`messageInput, this`sent
      ensures Valid()
      ensures v.Some? <==> key == "Enter" && !shiftKey
      ensures v.Some? ==>
        SendResult(v.value, Composer(nickname, isNicknameSet, messageInput, sent))
        == Send(Composer(old(nickname), old(isNicknameSet), old(messageInput), old(sent)), usernameInput, suffix, now)
      ensures v.None? ==> unchanged(this)
    {
      if key == "Enter" && !shiftKey {
        var outcome := SendMessage(suffix, now);
        v := Some(outcome);
      } else {
        v := None;
      }
    }

    /** A key press in the nickname field: Enter commits the nickname. */
    method OnNicknameKeypress(key: string, suffix: string)
      requires Valid() && IsRandomSuffix(suffix)
      modifies this`nickname, this`isNicknameSet
      ensures Valid()
      ensures key == "Enter" ==> NicknameChoice(nickname, isNicknameSet) == ResolveNickname(usernameInput, suffix)
      ensures key != "Enter" ==> unchanged(this)
    {
      if key == "Enter" {
        var _ := SetUserNickname(suffix);
      }
    }

    /** The nickname field loses focus: the nickname is committed. */
    method OnNicknameBlur(suffix: string)
      requires Valid() && IsRandomSuffix(suffix)
      modifies this`nickname, this`isNicknameSet
      ensures Valid()
      ensures NicknameChoice(nickname, isNicknameSet) == ResolveNickname(usernameInput, suffix)
    {
      var _ := SetUserNickname(suffix);
    }

    /**
     * Carry out reaction `r` in the order every handler does: set the
     * indicator, display the node, emit the event.
     */
    method ApplyReaction(r: Reaction)
      requires Valid()
      modifies this`statusClass, this`log, this`sent
      ensures Valid()
      ensures statusClass == if r.status.Some? && hasStatusIndicator then StatusClassName(r.status.value) else old(statusClass)
      ensures log == if r.display.Some? then AppendBounded(old(log), RenderNode(r.display.value.data, r.display.value.isStatus)) else old(log)
      ensures sent == if r.emit.Some? then old(sent) + [r.emit.value] else old(sent)
    {
      if r.status.Some? {
        UpdateConnectionStatus(r.status.value);
      }
      if r.display.Some? {
        DisplayMessage(r.display.value.data, r.display.value.isStatus);
      }
      if r.emit.Some? {
        sent := sent + [r.emit.value];
      }
    }

    /** The `socket.on` handler for `e`, as `React(e)` describes it. */
    method Handle(e: SocketEvent)
      requires Valid()
      modifies this`statusClass, this`log, this`sent
      ensures Valid()
      ensures var r := React(e);
        && statusClass == (if r.status.Some? && hasStatusIndicator then StatusClassName(r.status.value) else old(statusClass))
        && log == (if r.display.Some? then AppendBounded(old(log), RenderNode(r.display.value.data, r.display.value.isStatus)) else old(log))
        && sent == (if r.emit.Some? then old(sent) + [r.emit.value] else old(sent))
    {
      ApplyReaction(React(e));
    }
  }
}
