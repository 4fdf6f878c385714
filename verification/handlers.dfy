/**
 * The bot's handlers and the process-wide state they share: the start-up
 * configuration check, the `/start` allow-list gate that registers the status
 * message and starts the status task once, the wake button, and the
 * shutdown/sleep buttons that cancel the previous task of the same kind and
 * start a new one. The messaging transport is reduced to the texts the
 * handlers answer with and the ids of the message `/start` sends.
 */
module Handlers {
  import opened Wrappers
  import opened Hex
  import opened Wol
  import opened Link
  import opened Status

  const NoAccessText: string := "У вас нет доступа к этому боту."
  const InitText: string := "Подождите, идёт инициализация статуса..."
  const WolSentText: string := "Сигнал WOL отправлен."
  const TaskErrorText: string := "Произошла ошибка при отправке команды."

  // ---------------------------------------------------------------------------
  // Start-up configuration

  /** The environment as read at start-up; a missing variable is `None`. */
  datatype Env = Env(botToken: Option<string>, pcMac: Option<string>, pcIp: Option<string>,
                     tcpServerIp: Option<string>, tcpServerPort: int)

  datatype Config = Config(botToken: string, pcMac: string, pcIp: string,
                           tcpServerIp: string, tcpServerPort: int)

  /** Python truthiness of an optional string: present and not empty. */
  predicate Truthy(v: Option<string>) {
    v.Some? && v.value != ""
  }

  /**
   * The check before the bot starts: every required value must be truthy (a
   * port of 0 is falsy); otherwise start-up fails, modelled as `None`.
   */
  function LoadConfig(env: Env): (r: Option<Config>)
    ensures r.Some? <==> Truthy(env.botToken) && Truthy(env.pcMac) && Truthy(env.pcIp)
                         && Truthy(env.tcpServerIp) && env.tcpServerPort != 0
    ensures r.Some? ==> r.value.botToken != "" && r.value.pcMac != "" && r.value.pcIp != ""
                        && r.value.tcpServerIp != "" && r.value.tcpServerPort != 0
                        && Some(r.value.pcMac) == env.pcMac && Some(r.value.pcIp) == env.pcIp
                        && Some(r.value.botToken) == env.botToken
                        && Some(r.value.tcpServerIp) == env.tcpServerIp
                        && r.value.tcpServerPort == env.tcpServerPort
  {
    match (env.botToken, env.pcMac, env.pcIp, env.tcpServerIp)
    case (Some(token), Some(mac), Some(ip), Some(serverIp)) =>
      if token != "" && mac != "" && ip != "" && serverIp != "" && env.tcpServerPort != 0
      then Some(Config(token, mac, ip, serverIp, env.tcpServerPort))
      else None
    case _ => None
  }

  // ---------------------------------------------------------------------------
  // The wake button

  /** What the wake button does: the datagram `wake_on_lan` sent, if any, and the answer shown. */
  datatype WakeOutcome = WakeOutcome(sent: Option<Datagram>, answer: string)

  /**
   * `on_wake_pc`: no allow-list check; sends the magic packet and always
   * answers that the signal went out, even when nothing was sent.
   */
  function OnWake(mac: string, ip: string, socketOk: bool): (r: WakeOutcome)
    ensures r.answer == WolSentText
    ensures r.sent.Some? <==> DecodeMac(mac).Some? && socketOk
    ensures r.sent.Some? ==> r.sent.value.port == 9 && r.sent.value.host == ip
    ensures r.sent == WakeOnLan(mac, ip, socketOk)
  {
    WakeOutcome(WakeOnLan(mac, ip, socketOk), WolSentText)
  }

  // ---------------------------------------------------------------------------
  // Shutdown and sleep tasks

  datatype Kind = Shutdown | Sleep

  /** The command each task hands to `send_command`. */
  function CommandFor(kind: Kind): (c: string)
    ensures c != "" && (c == "shutdown" <==> kind == Shutdown)
    ensures kind == Sleep ==> c == "sleep"
  {
    if kind == Shutdown then "shutdown" else "sleep"
  }

  /** The fixed confirmation each task answers with once the send returned. */
  function SentText(kind: Kind): (r: string)
    ensures r != TaskErrorText && r != SendFailedText && r != WolSentText
  {
    if kind == Shutdown then "Команда на выключение отправлена." else "Команда на перевод в сон отправлена."
  }

  /**
   * The answer of a task that was not cancelled: the fixed confirmation when
   * the send returned a string, whatever that string was, and the generic
   * error text when it raised.
   */
  function TaskAnswer(kind: Kind, r: SendResult): (answer: string)
    ensures r.Returned? ==> answer == SentText(kind)
    ensures r.Raised? ==> answer == TaskErrorText
  {
    match r
    case Returned(_) => SentText(kind)
    case Raised => TaskErrorText
  }

  /** One `shutdown_task` or `sleep_task`. */
  class Task {
    const kind: Kind
    var done: bool
    var cancelRequested: bool
    /** The text the task answered the button press with, if it got that far. */
    var answer: Option<string>

    constructor (kind: Kind)
      ensures this.kind == kind && !done && !cancelRequested && answer == None
    {
      this.kind := kind;
      done, cancelRequested, answer := false, false, None;
    }

    /** `task.cancel()`: a request to stop, which has no effect on a task that is done. */
    method Cancel()
      modifies this
      ensures cancelRequested == (old(cancelRequested) || !old(done))
      ensures done == old(done) && answer == old(answer)
    {
      if !done {
        cancelRequested := true;
      }
    }

    /**
     * The task body. A task whose cancellation was requested before it ran
     * ends without sending or answering. Otherwise it sends its command over
     * the link and answers with `TaskAnswer`, discarding the reply text.
     */
    method Run(link: TcpClient, attempts: seq<ConnectAttempt>, exchange: Exchange)
      requires !done && answer == None && link.Valid()
      requires !cancelRequested ==> CountAccepted(attempts) >= ConnectsNeeded(link.connected, exchange)
      modifies this, link
      ensures done && cancelRequested == old(cancelRequested) && link.Valid()
      ensures old(cancelRequested) ==> answer == None && unchanged(link)
      ensures !old(cancelRequested) ==>
                link.connected
                && |link.written| == |old(link.written)| + 1
                && link.written[..|old(link.written)|] == old(link.written)
                && link.written[|old(link.written)|].command == CommandFor(kind)
                && answer == Some(if exchange.OtherError? then TaskErrorText else SentText(kind))
    {
      if cancelRequested {
        done := true;
        return;
      }
      var r, _, _ := link.SendCommand(CommandFor(kind), attempts, exchange);
      answer := Some(TaskAnswer(kind, r));
      done := true;
    }
  }

  // ---------------------------------------------------------------------------
  // The process-wide state

  class Session {
    const allowedUsers: set<int>
    var chatId: Option<int>
    var messageId: Option<int>
    /** `auto_update_task`: the running status loop, if started. */
    var statusTask: StatusUpdater?
    var shutdownTask: Task?
    var sleepTask: Task?

    /** Each handle holds a task of its own kind, so the two handles never share a task. */
    ghost predicate Valid()
      reads this
    {
      (shutdownTask != null ==> shutdownTask.kind == Shutdown)
      && (sleepTask != null ==> sleepTask.kind == Sleep)
    }

    constructor (allowedUsers: set<int>)
      ensures Valid()
      ensures this.allowedUsers == allowedUsers
      ensures chatId == None && messageId == None && statusTask == null
      ensures shutdownTask == null && sleepTask == null
    {
      this.allowedUsers := allowedUsers;
      chatId, messageId := None, None;
      statusTask := null;
      shutdownTask, sleepTask := null, null;
    }

    /** The current task handle of one kind. */
    function Current(kind: Kind): Task?
      reads this
    {
      if kind == Shutdown then shutdownTask else sleepTask
    }

    /**
     * `/start`: a user outside the allow-list is refused and nothing changes.
     * An allowed user's request registers the message just sent (`sentChat`,
     * `sentMessage`) as the status message, every time, and starts the status
     * task only if none was started before.
     */
    method Start(user: int, sentChat: int, sentMessage: int) returns (reply: string)
      requires Valid()
      modifies this
      ensures Valid()
      ensures user !in allowedUsers ==> reply == NoAccessText && unchanged(this)
      ensures user in allowedUsers ==>
                reply == InitText
                && chatId == Some(sentChat) && messageId == Some(sentMessage)
                && shutdownTask == old(shutdownTask) && sleepTask == old(sleepTask)
                && statusTask != null
                && (old(statusTask) != null ==> statusTask == old(statusTask))
                && (old(statusTask) == null ==>
                      fresh(statusTask) && statusTask.previousText == "" && statusTask.edits == [])
    {
      if user !in allowedUsers {
        reply := NoAccessText;
        return;
      }
      reply := InitText;
      chatId, messageId := Some(sentChat), Some(sentMessage);
      if statusTask == null {
        statusTask := new StatusUpdater();
      }
    }

    /**
     * A shutdown or sleep button press: cancel the previous task of that kind
     * if it is not done, then make a new task the current one of that kind.
     * The other kind's task and the rest of the state are left alone. There is
     * no allow-list check.
     */
    method Request(kind: Kind) returns (t: Task)
      requires Valid()
      modifies this, Current(kind)
      ensures Valid()
      ensures fresh(t) && t.kind == kind && !t.done && !t.cancelRequested && t.answer == None
      ensures Current(kind) == t
      ensures kind == Shutdown ==> sleepTask == old(sleepTask)
      ensures kind == Sleep ==> shutdownTask == old(shutdownTask)
      ensures chatId == old(chatId) && messageId == old(messageId) && statusTask == old(statusTask)
      ensures var previous := old(Current(kind));
              previous != null ==>
                previous.cancelRequested == (old(previous.cancelRequested) || !old(previous.done))
                && previous.done == old(previous.done) && previous.answer == old(previous.answer)
      ensures var other := if kind == Shutdown then old(sleepTask) else old(shutdownTask);
              other != null ==>
                other.cancelRequested == old(other.cancelRequested)
                && other.done == old(other.done) && other.answer == old(other.answer)
    {
      var previous := Current(kind);
      if previous != null && !previous.done {
        previous.Cancel();
      }
      t := new Task(kind);
      if kind == Shutdown {
        shutdownTask := t;
      } else {
        sleepTask := t;
      }
    }

    /**
     * One pass of the status loop, reading the message ids registered by the
     * latest `/start` and the link's `connected` flag at that moment.
     */
    method StatusTick(hostUp: bool, link: TcpClient, editOk: bool) returns (attempted: bool)
      requires statusTask != null && chatId.Some? && messageId.Some?
      modifies statusTask
      ensures var t := TickInput(chatId.value, messageId.value, hostUp, link.connected, editOk);
              attempted == (StatusText(hostUp, link.connected) != old(statusTask.previousText))
              && statusTask.edits == old(statusTask.edits) + TickEdits(old(statusTask.previousText), t)
              && statusTask.previousText
                 == NextPrevious(old(statusTask.previousText), StatusText(hostUp, link.connected), editOk)
    {
      attempted := statusTask.Tick(TickInput(chatId.value, messageId.value, hostUp, link.connected, editOk));
    }
  }

  // ---------------------------------------------------------------------------
  // Scenarios

  /**
   * A second `/start` while the status has not changed: the status task is
   * the one already running, its `previous_text` already equals the status
   * text, so the new message is never edited and keeps the placeholder text.
   */
  method SecondStartLeavesPlaceholder(user: int, hostUp: bool, connected: bool)
    returns (firstEdited: bool, secondEdited: bool, secondReply: string)
    ensures firstEdited && !secondEdited && secondReply == InitText
  {
    var link := new TcpClient("pc", 65432);
    if connected {
      var _ := link.Connect([Accepted(Stream(0))]);
    }
    var session := new Session({user});
    var _ := session.Start(user, 1, 10);
    firstEdited := session.StatusTick(hostUp, link, true);
    secondReply := session.Start(user, 1, 11);
    secondEdited := session.StatusTick(hostUp, link, true);
  }

  /**
   * Two shutdown presses in a row: the first task is cancelled before it runs
   * and answers nothing; only the second task sends and answers.
   */
  method DoubleShutdown(reply: string) returns (firstAnswer: Option<string>, secondAnswer: Option<string>)
    ensures firstAnswer == None && secondAnswer == Some(SentText(Shutdown))
  {
    var link := new TcpClient("pc", 65432);
    var session := new Session({});
    var first := session.Request(Shutdown);
    var second := session.Request(Shutdown);
    first.Run(link, [], Reply(reply));
    second.Run(link, [Refused, Accepted(Stream(1))], Reply(reply));
    firstAnswer, secondAnswer := first.answer, second.answer;
  }
}
