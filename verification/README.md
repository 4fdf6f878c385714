# onoffpc power-control bot — a Dafny model

`onoffpc/prog.py` is a Telegram bot that switches a PC on, off and to sleep.
It has three parts:

- **Wake.** It wakes the PC with a Wake-on-LAN magic packet.
- **Shutdown and sleep.** It sends `shutdown` or `sleep` to an agent on the PC over a persistent TCP link. The link reconnects on failure.
- **Status.** It keeps one Telegram message up to date with the PC's status. The text says whether the PC answers a ping and whether the TCP link is up.

This project models that logic in Dafny and proves properties of it:

- `wrappers.dfy` (`Wrappers`): the `Option` datatype.
- `hex.dfy` (`Hex`): MAC normalisation. It deletes `:` and then `-`, then decodes with Python's `bytes.fromhex`, modelled as CPython implements it. ASCII whitespace is skipped in front of each digit pair. Any other non-hex character, or an unpaired digit, fails.
- `wol.dfy` (`Wol`): the magic packet (`0xFF` ×6, then the address ×16) and `wake_on_lan`. A reference parser stands for the receiving network card: it recognises a magic packet and recovers the address from it.
- `link.dfy` (`Link`): the `TCPClient` class, with `connect` and `send_command` as methods. The network is an oracle. Connect outcomes come as a sequence: refused, other `OSError`, or accepted with a stream. Each send meets one exchange: reply, read timeout, connection reset, incomplete read, or any other error.
- `status.dfy` (`Status`): the status text and `update_status_message`. The task is a class holding `previous_text` and the list of edit calls made. One pass of the loop, and a run of passes, are methods. Pure functions describe a run, and lemmas are proved about those functions.
- `handlers.dfy` (`Handlers`): the start-up configuration check and the wake button. It also holds the process-wide state as a `Session` class: the registered message ids, the status task, and the shutdown and sleep task handles. `/start` and the shutdown/sleep buttons are methods on it. Two scenario methods are proved end to end.

Behaviour of the code worth knowing:

- Only `/start` checks the allow-list. The wake, shutdown and sleep buttons act for any user (`OnWake`, `Session.Request`).
- `connect` loops until it is connected. So when `send_command` fails and recovers, it returns `"Не удалось отправить команду."` with the link already reconnected, not disconnected (`SendCommand`: `ensures connected`).
- Errors other than timeout, reset and incomplete read propagate out of `send_command` (`Raised`). Inside a shutdown/sleep task they become the generic error answer.
- The shutdown/sleep tasks discard the reply and answer with a fixed text (`TaskAnswer`, `Task.Run`).
- A failed edit does not advance `previous_text`, so the same text is edited again on the next pass (`FailedEditRetried`). Two passes with the same status make at most one edit only when the first edit succeeded (`NoRepeatAfterSuccess`).
- `previous_text` belongs to the status task, and a second `/start` does not reset it. So if the status is unchanged, the message sent by a second `/start` is never edited and keeps its placeholder text (`SecondStartLeavesPlaceholder`).
- `wake_on_lan` sends to `PC_IP_ADDRESS`. `BROADCAST_ADDRESS` is read but never used.

## Model

| member | source | states |
|---|---|---|
| `Hex.StripSeparators` | onoffpc/prog.py:113 | the normalised MAC text holds no `:` and no `-`, and every other character keeps its multiplicity |
| `Hex.StripSeparatorsAppend` | onoffpc/prog.py:113 | normalising a concatenation gives the normalised parts in the same order |
| `Hex.StripSeparatorsCons` | onoffpc/prog.py:113 | a leading `:` or `-` is dropped and any other leading character is kept in front of the normalised rest, which fixes the result and its order completely |
| `Hex.FromHex` | onoffpc/prog.py:113 | `bytes.fromhex` yields at most one byte per two characters. `FromHexShape`, `MalformedHexRejected`, `FromHexDigitsOnly` and `FromHexToHex` state what it accepts and what it yields |
| `Hex.DecodeMac` | onoffpc/prog.py:113 | the decoded address has at most one byte per two characters of the MAC text. `MacFormsDecode` states the round trip for the usual spellings |
| `Hex.FromHexShape` | onoffpc/prog.py:113 | a successful `bytes.fromhex` saw only hex digits and whitespace, and the number of digits is twice the number of bytes |
| `Hex.MalformedHexRejected` | onoffpc/prog.py:113 | a character that is neither hex digit nor whitespace, or an odd number of digits, makes decoding fail |
| `Hex.FromHexDigitsOnly` | onoffpc/prog.py:113 | on text made only of hex digits, decoding succeeds exactly when the length is even, giving half as many bytes |
| `Hex.FromHexToHex` | onoffpc/prog.py:113 | round trip: decoding the hex text of any byte string gives that byte string back |
| `Hex.MacFormsDecode` | onoffpc/prog.py:113 | an address written with `:`, with `-` or with no separator normalises and decodes to the same bytes |
| `Wol.MagicPacket` | onoffpc/prog.py:114 | the packet is 6 + 16·n bytes for an n-byte address and starts with six `0xFF` bytes. `MagicPacketLayout` and the parser lemmas give the rest |
| `Wol.Repeat` | onoffpc/prog.py:114 | `mac_bytes * 16` has 16 times the length of the address |
| `Wol.RepeatAt` | onoffpc/prog.py:114 | byte j of copy k in the repetition is byte j of the address |
| `Wol.MagicPacketLayout` | onoffpc/prog.py:114 | for a 6-byte address the packet is 102 bytes: six `0xFF`, then byte i equals address byte (i − 6) mod 6 |
| `Wol.MagicPacketWindows` | onoffpc/prog.py:114 | bytes 6+6k .. 11+6k of the packet equal the address for every k in 0..15 |
| `Wol.ParseMagicPacketRoundTrip` | onoffpc/prog.py:114 | a receiver recognises the packet and recovers exactly the address from it |
| `Wol.ParseMagicPacketOnlyMagic` | onoffpc/prog.py:114 | conversely, every frame the receiver accepts is the packet built for the address it yields |
| `Wol.WakeOnLan` | onoffpc/prog.py:110-122 | a datagram is sent exactly when the MAC decodes and the socket works. It goes to the given ip on port 9, and its payload is the magic packet of the decoded address, 6 + 16·n bytes. Otherwise nothing is sent and nothing is raised |
| `Wol.WakeOnLanSendsAddress` | onoffpc/prog.py:110-117 | for any 6-byte address in any of the three spellings, the datagram is 102 bytes to port 9 and parses back to that address |
| `Wol.MalformedMacSendsNothing` | onoffpc/prog.py:112-122 | malformed MAC text sends no packet, whatever the socket would do |
| `Wol.ExampleAddressForms` | onoffpc/prog.py:113-114 | `AA:BB:CC:DD:EE:FF`, `AA-BB-CC-DD-EE-FF` and `AABBCCDDEEFF` all decode to the bytes AA BB CC DD EE FF, and their packet is 102 bytes |
| `Link.TcpClient.constructor` | onoffpc/prog.py:52-58 | a new client has no reader or writer and is not connected |
| `Link.TcpClient.Connect` | onoffpc/prog.py:68-79 | returns only when connected. If already connected it makes no attempt and keeps its streams. Otherwise every attempt before the last failed, and the last was accepted and supplies the reader and writer |
| `Link.TcpClient.SendCommand` | onoffpc/prog.py:81-97 | connects first if needed and writes the command on the current stream. A reply is returned unchanged. A timeout, reset or incomplete read reconnects through a further run of `connect` and returns the fixed failure text. Any other error propagates. The link is connected on every path |
| `Status.PcStatus` | onoffpc/prog.py:150 | the PC line has no line break and is "ПК включен" exactly when the host answers |
| `Status.LinkStatus` | onoffpc/prog.py:151 | the link line has no line break and is "Сервер: подключен" exactly when the link is connected |
| `Status.StatusText` | onoffpc/prog.py:153 | the text starts with `Статус ПК: `, the PC line and a line break. `StatusTextTwoLines` and `StatusTextDistinct` give its full shape |
| `Status.RunPrevious` | onoffpc/prog.py:149-164 | after a run, `previous_text` is its starting value or one of the four status texts |
| `Status.RunEdits` | onoffpc/prog.py:149-164 | a run makes at most one edit call per pass |
| `Status.NextPrevious` | onoffpc/prog.py:155-164 | `previous_text` changes exactly when the new text differs from it and the edit succeeded, and then becomes that text |
| `Status.TickEdits` | onoffpc/prog.py:155-163 | a pass makes exactly one edit call, with the registered ids and the new text, when the text differs from `previous_text`, and none otherwise |
| `Status.StatusUpdater.constructor` | onoffpc/prog.py:147 | a new status task starts with `previous_text` empty and no edits |
| `Status.StatusUpdater.Tick` | onoffpc/prog.py:150-172 | one pass: the edit is attempted iff the text changed, the edit log grows by that pass's edits, and `previous_text` moves per `NextPrevious` |
| `Status.StatusUpdater.Run` | onoffpc/prog.py:149-175 | a run of passes leaves `previous_text` and the edit log as the run functions describe |
| `Status.StatusTextDistinct` | onoffpc/prog.py:150-153 | the four (host up, connected) pairs give four different texts, so the text determines the pair |
| `Status.StatusTextTwoLines` | onoffpc/prog.py:153 | the text has exactly one line break. The PC line `Статус ПК: …` comes before it and the link line after it |
| `Status.RunPreviousIsLastPushed` | onoffpc/prog.py:155-172 | after any run, `previous_text` is the text of the last successful edit, or its starting value if no edit succeeded |
| `Status.NoRepeatAfterSuccess` | onoffpc/prog.py:155-164 | after a successful edit, a second pass with the same status makes no further edit |
| `Status.FailedEditRetried` | onoffpc/prog.py:157-172 | after a failed edit `previous_text` is unchanged, and the next pass with the same status edits again with the same text |
| `Status.RunPreviousIsStatus` | onoffpc/prog.py:147-172 | from the task's start, `previous_text` is always empty or one of the four status texts |
| `Handlers.LoadConfig` | onoffpc/prog.py:25-26 | start-up succeeds exactly when token, MAC, PC ip and server ip are present and non-empty and the port is non-zero. The configuration then carries those values |
| `Handlers.OnWake` | onoffpc/prog.py:195-200 | no allow-list check. The datagram is exactly what `wake_on_lan` sends. The answer is always "Сигнал WOL отправлен.", even when no packet went out |
| `Handlers.CommandFor` | onoffpc/prog.py:212 | the shutdown task sends `shutdown` and the sleep task sends `sleep` (line 231) |
| `Handlers.SentText` | onoffpc/prog.py:213 | each confirmation differs from the generic error answer, the failure text of `send_command` and the WOL answer, so the user can tell them apart |
| `Handlers.TaskAnswer` | onoffpc/prog.py:210-217 | a returned send gives the kind's fixed confirmation, whatever the reply text. A raised send gives the generic error text |
| `Handlers.Task.constructor` | onoffpc/prog.py:210-219 | `create_task` makes a task of the given kind that is not done, has no cancel request and has not answered |
| `Handlers.Task.Cancel` | onoffpc/prog.py:207-208 | cancellation is requested only for a task that is not done, and nothing else changes |
| `Handlers.Task.Run` | onoffpc/prog.py:210-217 | a task cancelled before it runs neither sends nor answers. Otherwise it writes its command on the link, leaves the link connected, and answers the fixed confirmation or, on another error, the generic error text |
| `Handlers.Session.constructor` | onoffpc/prog.py:42-48 | no status message, no status task, no shutdown or sleep task. The handle invariant holds: each task handle holds a task of its own kind |
| `Handlers.Session.Start` | onoffpc/prog.py:177-193 | a user outside the allow-list gets the refusal and no state changes. An allowed user's `/start` always overwrites the chat and message ids, and creates the status task only when none exists. The handle invariant is kept |
| `Handlers.Session.Request` | onoffpc/prog.py:202-237 | the previous task of the same kind gets a cancel request if it is not done. That kind's handle is replaced by a fresh task. The other kind's handle, the task it holds (its cancel request, done flag and answer) and the rest of the state are untouched. Each handle keeps holding a task of its own kind, so the two never share a task |
| `Handlers.Session.StatusTick` | onoffpc/prog.py:149-164 | a pass of the status task edits the message registered by the latest `/start`, using the link's current `connected` flag |
| `Handlers.SecondStartLeavesPlaceholder` | onoffpc/prog.py:147-193 | after one successful pass, a second `/start` with the status unchanged leads to no edit of the new message |
| `Handlers.DoubleShutdown` | onoffpc/prog.py:206-219 | two shutdown presses in a row: the first task is cancelled and answers nothing. Only the second answers, with the fixed confirmation |

## Left out

- Logging with timestamps, the 2-second reconnect pause, the 3-second poll pause, the 3600-second sleep of `tcp_client_runner`, and the 5-second `wait_for` bound are left out. Timeouts appear only as oracle outcomes.
- The `asyncio.Lock`, task scheduling and the interleaving of tasks are left out. A send is one atomic step. So the model does not show the moment during a reconnect when `connected` is false and the status loop could read it.
- Cancellation is a flag checked when a task starts running. A task cancelled in the middle of a send, after its command was written, is not modelled.
- `Link.TcpClient.Connect`: a server that never accepts makes `connect` loop forever. The model cannot express that, so it requires an accepted attempt somewhere in the oracle.
- `Link.TcpClient.Connect`: exceptions from `open_connection` that are not `OSError` are not modelled.
- `Link.TcpClient.SendCommand`: the reply is taken as already-decoded text. The 1024-byte read limit, UTF-8 decoding and truncation of longer replies are not modelled. A reply that fails to decode counts as "any other error". A peer that closed the stream gives an empty reply (`Reply("")`), and the link stays marked connected.
- The ping in `is_host_up` (lines 124-140) is a boolean input to each pass.
- The Telegram transport is not modelled: the bot, dispatcher, keyboards, `message.answer` and `callback_query.answer`. A failing answer inside a task, which the task would turn into the error answer, is not modelled. Edits are modelled as a success/failure input.
- The UDP socket calls in `wake_on_lan` are one success/failure input.
- `int()` parsing of `PING_COUNT`, `TCP_SERVER_PORT` and `ALLOWED_USERS` is not modelled. The port is taken as an integer, and the allow-list as a set. A missing `ALLOWED_USERS` makes `int('')` raise at line 23, which is not modelled.
- `tcp_client_runner`, `send_tcp_command` and `main` are thin wrappers around the modelled methods.
- qrcode/main.py is not part of this model.
