# Sensor boards and their server

A Dafny model of the software that collects synchronised sensor readings from
CC3220SF boards: the Python server that commands the boards and stores what they
send, and the C code on the boards.

| component | modules |
|---|---|
| command round between the server and its board threads | `CommandRound`, `CommandRoundSafety`, `CommandRoundShutdown`, `CommandRoundProgress`, `CommandRoundOutcome` |
| port allocation for boards | `PortAllocation` |
| beacon log, its message, the send schedule and the server's parser | `RingLog`, `BeaconLog`, `BeaconMessages`, `SendSchedule`, `BeaconBoard` |
| reading queue and its text | `ReadingQueue`, `QueueText` |
| IPv6, IPv4 and MAC address parsers and printers | `Ipv6`, `Ipv6Theorems`, `Ipv6Texts`, `Ipv4`, `Ipv4Texts`, `MacAddress`, `MacTexts` |
| terminal history and line editor | `CommandHistory`, `LineEditor`, `LineEditorKeys` |
| local time projected onto beacon time | `AxisTransform` |
| shared text operations, options, reversal and division facts | `Text`, `LibraryTexts`, `Options`, `Sequences`, `Arithmetic` |

## How the model is built

- The command round is a labelled transition system over any number of workers.
  Each program point is one access to a shared variable or one blocking call;
  `thread_tasks_done += 1` is a read and a write. `Event.set()` notifies the
  registered waiters, and a notified waiter returns even if the flag is cleared
  before it runs, as in CPython. Worker logs and the list of past commands are
  history variables. Socket calls of a worker may fail at any time.
- C functions that update fields or buffers are methods over arrays and class
  fields, each tied to a specification function; the theorems are about those
  functions. C strings end at the first NUL. Loop bodies that the source writes
  out twice or inline are separate methods where that keeps their contracts small.
- `str()` of a bytes object, `str.replace`, `str.split`, `int()`, `strtok`,
  `strtoul` and `sprintf` are modelled by functions in `Text` and `Ipv4`.
- Received bytes, keys, timestamps, which ports can be bound and when a socket call
  fails are arbitrary inputs. Running out of keys is an outcome of `GetCmd`.
- Memory of the beacon log that was never written is taken to hold 3200171710, the
  value the server drops.

## What turned out not to hold

- A round need not end. A worker that is slow to reach `end_flag.wait()` misses the
  set when the next round clears the flag first, two overlapping increments always
  lose one, and a failed socket call ends its worker. `RoundEndsIff` says exactly when
  a round ends; two examples reach states in which it never will.
- A first command over TCP never completes (`FirstRoundIsUdp`).
- `ipv6AddressParse` rejects seven groups followed by `::`, and accepts ill-formed
  addresses: seven groups, `::` and more, or eight and more groups on the left, or nine
  and more without `::` (`ParseCompressedIff`, `SevenThenOneAccepted`, `ParseFull`).
- `macAddressParse` reads an address back only if the old buffer allows it
  (`RoundTripIff`).
- The first down-arrow after a stored command skips the oldest entry once the array
  has wrapped (`DownAfterPush`), although the comment of `retCommand` speaks of the
  command after the current one.
- The line limit is 128 characters in any longer buffer (`LimitReached`).
- Shifting beacon values can drop the first run (`BeaconClockEquivarianceIff`,
  `RunsKeptIff`, `MarkerExample`).
- A recalled command can be longer than the buffer of `GetCmd`, and then is copied past
  its end (`GetCmd`, `MenuOverrun`).

## Model

| member | source | states |
|---|---|---|
| `CommandRoundSafety.RunKeepsInv` | board_communication/server.py:165-304 | The round invariant (flags by coordinator position, each worker pending or served, count at most the completed increments) holds in every state of every run, for any number of boards and every interleaving. |
| `CommandRoundSafety.RoundLeftOnlyWhenServed` | board_communication/server.py:207-210 | When the coordinator can leave the polling loop, every worker has stored exactly one response for each command issued so far, in order, in the mode and with the text of that command. |
| `CommandRoundSafety.EachRoundServedOnce` | board_communication/server.py:278-304 | In every reachable state a worker has one response per round left and at most one more, for the round now open: no round is served twice. |
| `CommandRoundSafety.NoWorkerInTaskDuringReset` | board_communication/server.py:168-169 | While the message, the count or the mode is changed, no worker is between passing `start_flag.wait()` and finishing its increment. |
| `CommandRoundSafety.CountNeverAhead` | board_communication/server.py:300 | While a round is open the count never exceeds the increments completed in this round, although read and write are separate steps. |
| `CommandRoundSafety.FirstRoundIsUdp` | board_communication/server.py:289-300 | With at least one board, the first command whose round is ever left was sent over UDP, because a worker that serves TCP first raises on the unbound `server`. |
| `CommandRoundSafety.ExitOnlyByName` | board_communication/server.py:171-180 | In every reachable state the exit flag is set only for the text `exit`, no round is open for that text, and none was ever left for it. |
| `CommandRoundSafety.CommandTaken` | board_communication/server.py:165-205 | From an idle coordinator four or five steps later: for the text `exit` the exit flag is set, for any other command it is not and `end_flag` is cleared. |
| `CommandRoundShutdown.ShutdownTerminates` | board_communication/server.py:171-180 | After exit is issued every step decreases a rank, so every run is bounded; no worker starts a task and no response is stored. |
| `CommandRoundShutdown.ExitFromIdle` | board_communication/server.py:171-180 | From an idle coordinator a shutdown takes at most 13 steps per board and 6 more, and stores nothing. |
| `CommandRoundShutdown.ShutdownOutcome` | board_communication/server.py:274-308 | Where a shutdown comes to rest every worker has ended or is still waiting for its board to connect, and the coordinator has exited if and only if none is. |
| `CommandRoundProgress.AbsentHangsTheRound` | board_communication/server.py:204-208 | Once a worker has raised, or waits for the end of the previous round after `end_flag` was cleared, no continuation leaves the round. |
| `CommandRoundProgress.MissedEndFlagHangs` | board_communication/server.py:204 | If some worker has incremented but not yet called `end_flag.wait()` when `end_flag` is cleared, the new round never ends. |
| `CommandRoundProgress.AbsenceArises` | board_communication/server.py:204-304 | The converse: a worker becomes absent only by that race or by an exception. |
| `CommandRoundOutcome.RoundEndsIff` | board_communication/server.py:204-304 | For every reachable state in which a round opens and every run of the workers to rest: the coordinator can leave the round if and only if every worker was back from `end_flag.wait()` when it opened, it is not the first round over TCP, no socket call fails during it, and no two increments overlap. Otherwise nothing can ever move again. |
| `CommandRoundOutcome.LeavableIff` | board_communication/server.py:207-208 | At any time while the coordinator polls, it can leave if and only if every worker has completed its increment and no two increments overlapped. |
| `CommandRoundOutcome.OverlapHangs` | board_communication/server.py:300 | Overlap is always fatal: once a worker reads the count while another is about to write it, no continuation leaves the round. |
| `CommandRoundOutcome.RoundBounded` | board_communication/server.py:279-304 | While the coordinator polls, every run of the workers has at most twelve steps per board. |
| `CommandRoundOutcome.RoundComesToRest` | board_communication/server.py:207-304 | From every state of an open round the workers reach a state of rest without a step of the coordinator. |
| `CommandRoundProgress.MissedEndFlagExample` | board_communication/server.py:204-304 | One board and two commands reach a state in which nothing can move. |
| `CommandRoundProgress.LostIncrementExample` | board_communication/server.py:300 | Two boards and one command reach a state in which nothing can move, with no worker absent. |
| `PortAllocation.FirstBindableExact` | board_communication/server.py:99-115 | The search finds the least bindable port among the candidates, or reports that none of them is. |
| `PortAllocation.Server.AddBoard` | board_communication/server.py:95-134 | A board gets the first bindable of the next five ports; ports handed out strictly increase from the entry port and no two boards share one; a failed call changes nothing. |
| `RingLog.OldestFirst` | ccs_workspace/network_terminal_CC3220SF_LAUNCHXL_tirtos_ccs/ap_connection.c:907-909 | Reading a circular log from its current index around gives the end of the unbounded log, oldest first. |
| `Text.PrintPart` | ccs_workspace/network_terminal_CC3220SF_LAUNCHXL_tirtos_ccs/ap_connection.c:1385-1387 | One sprintf, strcpy and advance appends one part to the text in the buffer and stays inside it. |
| `BeaconLog.TsToString` | ccs_workspace/network_terminal_CC3220SF_LAUNCHXL_tirtos_ccs/ap_connection.c:1378-1398 | The buffer holds the text of the slots from the current index around, NUL-terminated, and 22 bytes per slot are enough. |
| `BeaconLog.ParseMcuMsg` | board_communication/test_local_clocks.py:106-126 | What is stored is the result of a specification function on the pieces of the message: pieces without a comma and fill values are skipped, the first piece that is no number ends the message. |
| `Text.ReceivedPlain` | board_communication/test_local_clocks.py:108-110 | For the characters a board prints, `str()` of the bytes and the two replacements give back the text that was sent. |
| `Text.PyIntOfInt` | board_communication/system_integration.py:133 | `int()` reads back every number that `%i` prints. |
| `LibraryTexts.DecAt` | ccs_workspace/network_terminal_CC3220SF_LAUNCHXL_tirtos_ccs/ap_connection.c:1385 | Each printed character is the code of its decimal digit. |
| `LibraryTexts.DecStart` | ccs_workspace/network_terminal_CC3220SF_LAUNCHXL_tirtos_ccs/ap_connection.c:1385 | There is no leading zero. |
| `LibraryTexts.PyIntAround` | board_communication/test_local_clocks.py:119 | `int()` allows white space around a number and one sign before it. |
| `LibraryTexts.PyIntUnderscore` | board_communication/test_local_clocks.py:119 | A single underscore between digits does not count. |
| `LibraryTexts.PyIntShape` | board_communication/test_local_clocks.py:119 | Every text `int()` accepts is white space, at most one sign, digits with single underscores between them, and white space. |
| `LibraryTexts.RemoveOne` | board_communication/test_local_clocks.py:109-110 | `str.replace` removes the first occurrence and goes on after it. |
| `LibraryTexts.ReprMeans` | board_communication/test_local_clocks.py:108 | `str()` of any bytes is a quoted text whose escapes, read back, give the bytes. |
| `LibraryTexts.EscapeLength` | board_communication/test_local_clocks.py:108 | Only the quote, backslashes and bytes that are not printable are escaped. |
| `LibraryTexts.CStringExact` | ccs_workspace/network_terminal_CC3220SF_LAUNCHXL_tirtos_ccs/uart_term.c:347-351 | A C string ends before its first NUL. |
| `BeaconLog.EndToEnd` | ccs_workspace/network_terminal_CC3220SF_LAUNCHXL_tirtos_ccs/ap_connection.c:1378-1398 | Printing the log and parsing the text yields exactly the last 300 readings in arrival order, without those that carry the fill value; at most 22 bytes per slot. |
| `BeaconLog.LosslessIff` | board_communication/test_local_clocks.py:119 | The server gets all of the last 300 readings if and only if none of them carries the fill value. |
| `BeaconMessages.PieceDecoded` | board_communication/test_local_clocks.py:113-123 | For every piece with a comma: a field that is no number ends the message, 3200171710 in either field drops the piece, and anything else is stored as sent. |
| `BeaconMessages.JunkSkipped` | board_communication/test_local_clocks.py:114-116 | A piece without a comma is skipped. |
| `BeaconMessages.ReadingsFirst` | board_communication/test_local_clocks.py:113-123 | Readings at the front of a message are stored, whatever comes after them. |
| `BeaconMessages.BadPieceEnds` | board_communication/test_local_clocks.py:112-126 | After a piece with, say, a letter in its first field nothing more is stored. |
| `BeaconBoard.Board.Log` | ccs_workspace/network_terminal_CC3220SF_LAUNCHXL_tirtos_ccs/ap_connection.c:907-909 | The arrays and the index are those of the circular log with the reading appended. |
| `BeaconBoard.Board.OnBeacon` | ccs_workspace/network_terminal_CC3220SF_LAUNCHXL_tirtos_ccs/ap_connection.c:902-1042 | One beacon: a repeated timestamp changes nothing; a message goes out exactly when the number of sends grows, and it is the whole log. |
| `BeaconBoard.AllLoggedIff` | ccs_workspace/network_terminal_CC3220SF_LAUNCHXL_tirtos_ccs/ap_connection.c:902-909 | Everything heard is logged if and only if no timestamp repeats the one before it and the first is not 0. |
| `BeaconBoard.RepeatsIgnored` | ccs_workspace/network_terminal_CC3220SF_LAUNCHXL_tirtos_ccs/ap_connection.c:902 | Hearing the last timestamp again, however often, logs nothing. |
| `BeaconBoard.Board.ScheduleFirst` | ccs_workspace/network_terminal_CC3220SF_LAUNCHXL_tirtos_ccs/ap_connection.c:912-914 | The first deadline is the next multiple of the interval after the first reading. |
| `BeaconBoard.Board.SendWhenDue` | ccs_workspace/network_terminal_CC3220SF_LAUNCHXL_tirtos_ccs/ap_connection.c:920-1021 | The deadline after the step is again the closed formula of the first reading and the number of sends, with no 32-bit wrap. |
| `BeaconBoard.DeliverAll` | ccs_workspace/network_terminal_CC3220SF_LAUNCHXL_tirtos_ccs/ap_connection.c:873-1043 | Over every run, the server stores at each send the latest 300 logged readings without fill values. |
| `BeaconBoard.OneDeliveryPerSend` | ccs_workspace/network_terminal_CC3220SF_LAUNCHXL_tirtos_ccs/ap_connection.c:920-1023 | There are as many deliveries as sends. |
| `SendSchedule.FirstReadingNotSent` | ccs_workspace/network_terminal_CC3220SF_LAUNCHXL_tirtos_ccs/ap_connection.c:912-920 | The first reading never triggers a send. |
| `SendSchedule.DeadlineMeans` | ccs_workspace/network_terminal_CC3220SF_LAUNCHXL_tirtos_ccs/ap_connection.c:912-921 | The first deadline is the least multiple of 30000 ms after the first reading, and each further one comes 30000 ms later. |
| `SendSchedule.DeadlineBounded` | ccs_workspace/network_terminal_CC3220SF_LAUNCHXL_tirtos_ccs/ap_connection.c:914-1021 | For any sequence of times at all, no deadline exceeds the largest time by more than one interval. |
| `SendSchedule.SendsAtMostBoundaries` | ccs_workspace/network_terminal_CC3220SF_LAUNCHXL_tirtos_ccs/ap_connection.c:920-1021 | With nondecreasing times there are never more sends than interval boundaries crossed. |
| `SendSchedule.AlwaysOnScheduleIff` | ccs_workspace/network_terminal_CC3220SF_LAUNCHXL_tirtos_ccs/ap_connection.c:912-1021 | With nondecreasing times, sends equal boundaries crossed at every step if and only if no reading skips a whole interval. |
| `SendSchedule.CloseReadingsSkipNothing` | ccs_workspace/network_terminal_CC3220SF_LAUNCHXL_tirtos_ccs/ap_connection.c:920 | Readings at most one interval apart skip no interval. |
| `BeaconBoard.DeadlinesOf` | ccs_workspace/network_terminal_CC3220SF_LAUNCHXL_tirtos_ccs/ap_connection.c:912-1021 | Over every run, the values of the deadline are those of the closed formula for the first reading, one more than there are sends. |
| `BeaconBoard.SharedDeadlinesIff` | ccs_workspace/network_terminal_CC3220SF_LAUNCHXL_tirtos_ccs/ap_connection.c:912-1021 | Of the deadline sequences of two boards' runs one is the beginning of the other if and only if their first readings fall in the same interval. |
| `ReadingQueue.Queue.constructor` | ccs_workspace/network_terminal_CC3220SF_LAUNCHXL_tirtos_ccs/queue.c:10-25 | A new queue of any positive capacity is empty and consistent. |
| `ReadingQueue.Queue.Enque` | ccs_workspace/network_terminal_CC3220SF_LAUNCHXL_tirtos_ccs/queue.c:38-57 | Appends a copy of the five values and overwrites no other row, or refuses when full and changes nothing. |
| `ReadingQueue.Queue.Deque` | ccs_workspace/network_terminal_CC3220SF_LAUNCHXL_tirtos_ccs/queue.c:59-69 | Removes the oldest reading and returns its row, or refuses when empty. |
| `ReadingQueue.Queue.QIndex` | ccs_workspace/network_terminal_CC3220SF_LAUNCHXL_tirtos_ccs/queue.c:99-104 | The row of the i-th oldest reading, and of any other i the remainder of front + i. |
| `ReadingQueue.Queue.QFront` | ccs_workspace/network_terminal_CC3220SF_LAUNCHXL_tirtos_ccs/queue.c:85-90 | The row of the oldest reading. |
| `ReadingQueue.Queue.QBack` | ccs_workspace/network_terminal_CC3220SF_LAUNCHXL_tirtos_ccs/queue.c:92-97 | The row of the newest reading. |
| `ReadingQueue.Queue.BackFormula` | ccs_workspace/network_terminal_CC3220SF_LAUNCHXL_tirtos_ccs/queue.c:19-22 | In every consistent state back is (front + size - 1) modulo the capacity. |
| `QueueText.Record` | ccs_workspace/network_terminal_CC3220SF_LAUNCHXL_tirtos_ccs/ap_connection.c:798-800 | Drop-oldest: the queue then holds the last readings, and the row handed out by the removal is the one overwritten next. |
| `QueueText.TxAccelerometer` | ccs_workspace/network_terminal_CC3220SF_LAUNCHXL_tirtos_ccs/ap_connection.c:764-814 | Over every run the queue holds the last min(n, capacity) readings in order. |
| `QueueText.QToString` | ccs_workspace/network_terminal_CC3220SF_LAUNCHXL_tirtos_ccs/ap_connection.c:1359-1375 | The buffer holds the text of the readings, oldest first, NUL-terminated, within 58 bytes each; an empty queue writes nothing. |
| `QueueText.QueueTextRoundTrip` | board_communication/system_integration.py:125-132 | Splitting the text on bars and commas gives back each reading: the last three numbers themselves, the first two as the number below 2^32 that differs from the stored one by a multiple of 2^32. |
| `QueueText.TimestampsReadBack` | ccs_workspace/network_terminal_CC3220SF_LAUNCHXL_tirtos_ccs/ap_connection.c:1367-1371 | The server reads exactly the 32-bit timestamps that the board measured, also where the int32_t that holds them is negative. |
| `Ipv6.Ipv6AddressParse` | ccs_workspace/network_terminal_CC3220SF_LAUNCHXL_tirtos_ccs/network_terminal.c:1078-1193 | The C parser returns the eight groups of a group-level specification in network byte order, or -1 with the output untouched, for every text. |
| `Ipv6.ShiftToEnd` | ccs_workspace/network_terminal_CC3220SF_LAUNCHXL_tirtos_ccs/network_terminal.c:1176-1187 | The in-place shift terminates, moves the bytes after the `::` to the end unchanged and leaves zeros between. |
| `Ipv6.StoreGroup` | ccs_workspace/network_terminal_CC3220SF_LAUNCHXL_tirtos_ccs/network_terminal.c:1125-1126 | Storing a group keeps the buffer equal to the bytes of the groups followed by zeros. |
| `Ipv6Theorems.ParseFull` | ccs_workspace/network_terminal_CC3220SF_LAUNCHXL_tirtos_ccs/network_terminal.c:1104-1172 | A text of groups without `::` is accepted if and only if it has at least eight. Eight keep their values; with more, all digits from the eighth group on are one number modulo 65536. |
| `Ipv6Theorems.ParseCompressed` | ccs_workspace/network_terminal_CC3220SF_LAUNCHXL_tirtos_ccs/network_terminal.c:1104-1188 | `left::right` of at most seven groups, not all on the left, stands for left, zeros, right. |
| `Ipv6Theorems.SevenThenZeroRejected` | ccs_workspace/network_terminal_CC3220SF_LAUNCHXL_tirtos_ccs/network_terminal.c:1121 | Seven groups followed by `::` are rejected although section 2.2 of RFC 4291 allows them. |
| `Ipv6Theorems.ParseCompressedIff` | ccs_workspace/network_terminal_CC3220SF_LAUNCHXL_tirtos_ccs/network_terminal.c:1104-1188 | For all groups on both sides of `::`: accepted if and only if at most six are on the left and seven in all, or seven on the left and any on the right, or eight or more on the left; with the address each accepted text is taken for. |
| `Ipv6Theorems.AsSpecifiedIff` | ccs_workspace/network_terminal_CC3220SF_LAUNCHXL_tirtos_ccs/network_terminal.c:1121 | The parser accepts the texts that section 2.2 of RFC 4291 allows, and no others, if and only if at most six groups stand on the left. |
| `Ipv6Theorems.ManyOnTheLeft` | ccs_workspace/network_terminal_CC3220SF_LAUNCHXL_tirtos_ccs/network_terminal.c:1104-1172 | With seven or more groups on the left the `::` is no more than a separator: seven groups and then one number of all further digits modulo 65536. |
| `Ipv6Theorems.SevenThenOneAccepted` | ccs_workspace/network_terminal_CC3220SF_LAUNCHXL_tirtos_ccs/network_terminal.c:1121 | Seven groups, `::` and one more group, an ill-formed address, are read as these eight groups. |
| `Ipv6Theorems.ParseCompressedText` | ccs_workspace/network_terminal_CC3220SF_LAUNCHXL_tirtos_ccs/network_terminal.c:1078-1193 | The same for the C function on every text `left::right` of groups: the bytes it writes, or a refusal that writes nothing. |
| `Ipv6Theorems.PrintIPv6` | ccs_workspace/network_terminal_CC3220SF_LAUNCHXL_tirtos_ccs/network_terminal.c:1039-1049 | The text printed for sixteen bytes is their eight groups joined by colons. |
| `Ipv6Theorems.RoundTrip` | ccs_workspace/network_terminal_CC3220SF_LAUNCHXL_tirtos_ccs/network_terminal.c:1027-1193 | For every sixteen bytes, parsing what is printed gives the same bytes. |
| `Ipv6Texts.ParseLower` | ccs_workspace/network_terminal_CC3220SF_LAUNCHXL_tirtos_ccs/network_terminal.c:1104-1119 | Upper and lower case digits mean the same, for every text. |
| `Ipv6Texts.HexLowerChars` | ccs_workspace/network_terminal_CC3220SF_LAUNCHXL_tirtos_ccs/network_terminal.c:1039-1049 | The digits that are printed, by character code: 0 to 9 and lower case a to f. |
| `Ipv6Texts.SingleColonFirst` | ccs_workspace/network_terminal_CC3220SF_LAUNCHXL_tirtos_ccs/network_terminal.c:1096-1102 | A text that starts with a single colon is refused. |
| `Ipv6Texts.SecondCompressionRejected` | ccs_workspace/network_terminal_CC3220SF_LAUNCHXL_tirtos_ccs/network_terminal.c:1130-1139 | A second `::` is refused while at most six groups have been read, whatever follows. |
| `Ipv6Texts.FinalColon` | ccs_workspace/network_terminal_CC3220SF_LAUNCHXL_tirtos_ccs/network_terminal.c:1149-1164 | A final colon without `::` is refused, except after eight or more groups, where it is skipped. |
| `Ipv6Texts.FinalColonCompressed` | ccs_workspace/network_terminal_CC3220SF_LAUNCHXL_tirtos_ccs/network_terminal.c:1157-1160 | A final colon after groups on the right of `::` is refused. |
| `Ipv6Texts.LongGroup` | ccs_workspace/network_terminal_CC3220SF_LAUNCHXL_tirtos_ccs/network_terminal.c:1106-1119 | Of a group of more than four digits the last four count, wherever it stands. |
| `Ipv6Texts.OthersSkipped` | ccs_workspace/network_terminal_CC3220SF_LAUNCHXL_tirtos_ccs/network_terminal.c:1104-1143 | Characters other than digits and colons are skipped, but for the test for a leading colon. |
| `Ipv4.IntIpToIpStr` | util/util.py:21-38 | The dotted text of the four bytes of any integer, highest first. |
| `Ipv4.HexIpToIpStr` | util/util.py:41-62 | The dotted text of four two-digit pieces, None for any other length, an exception for a piece that is no number. |
| `Ipv4.BytesIpToIpStr` | util/util.py:4-18 | The dotted text of the value of the bytes in the given order and signedness, None unless IPv4, an exception for an unknown order. |
| `Ipv4.SignedAlike` | util/util.py:4-18 | For four bytes the text is the same signed or unsigned. |
| `Ipv4.RegistrationRoundTrip` | ccs_workspace/network_terminal_CC3220SF_LAUNCHXL_tirtos_ccs/ap_connection.c:185 | The registration text fits its 25-byte buffer and the server reads the address back from it. |
| `Ipv4.Ipv4AddressParse` | ccs_workspace/network_terminal_CC3220SF_LAUNCHXL_tirtos_ccs/network_terminal.c:1211-1255 | The C parser returns the combination of the first four tokens when all are below 256, and -1 otherwise. |
| `Ipv4.DottedRoundTrip` | ccs_workspace/network_terminal_CC3220SF_LAUNCHXL_tirtos_ccs/network_terminal.c:1211-1255 | The dotted text of every 32-bit address parses back to the address. |
| `Ipv4.Agreement` | board_communication/server.py:79 | For every 32-bit address the registration text, the hexadecimal and the little-endian converters give one text, and the terminal parses it back. |
| `Ipv4Texts.NumbersAccepted` | ccs_workspace/network_terminal_CC3220SF_LAUNCHXL_tirtos_ccs/network_terminal.c:1211-1255 | Any numbers joined by dots are accepted if and only if there are at least four and the first four are below 256, and these are then the bytes of the address, highest first. |
| `Ipv4Texts.TokenNumber` | ccs_workspace/network_terminal_CC3220SF_LAUNCHXL_tirtos_ccs/network_terminal.c:1219-1243 | A token may have spaces and a sign before its digits and anything but a digit after them; too large a number is cut to 2^32 - 1, a negative one taken modulo 2^32. |
| `Ipv4Texts.TokenNoNumber` | ccs_workspace/network_terminal_CC3220SF_LAUNCHXL_tirtos_ccs/network_terminal.c:1219-1243 | A sign without digits counts as 0. |
| `Ipv4Texts.DoubleDot` | ccs_workspace/network_terminal_CC3220SF_LAUNCHXL_tirtos_ccs/network_terminal.c:1226-1249 | A second dot between two tokens changes nothing. |
| `Ipv4Texts.OuterDots` | ccs_workspace/network_terminal_CC3220SF_LAUNCHXL_tirtos_ccs/network_terminal.c:1226-1249 | Nor does a dot before the first token or after the last. |
| `Ipv4Texts.AnyIntegerText` | util/util.py:21-38 | The dotted text of any integer parses back to its remainder modulo 2^32. |
| `Ipv4Texts.FourBytes` | util/util.py:4-18 | The four bytes of an address in either order, signed or not, give the address or its two's complement. |
| `Ipv4Texts.PairsLower` | util/util.py:41-62 | Upper and lower case digits mean the same to `hex_ip_to_ip_str`. |
| `Ipv4Texts.PairOfOneDigit` | util/util.py:57 | A space or plus sign in a pair counts as 0, a minus sign negates the other digit. |
| `Ipv4Texts.PairNeedsHex` | util/util.py:57 | A pair that is a number has a digit, and beside it nothing but a digit, a sign before it or a space. |
| `Ipv4Texts.GreetingNeeded` | board_communication/server.py:78-79 | An address is registered only from a message that contains the greeting, and is then the number after its first colon. |
| `Ipv4Texts.GreetingEnough` | board_communication/server.py:78-79 | Every message with the greeting and a colon is read that way, whatever surrounds the greeting. |
| `MacAddress.HexbyteStrtoASCII` | ccs_workspace/network_terminal_CC3220SF_LAUNCHXL_tirtos_ccs/network_terminal.c:1272-1317 | The return code and the byte for every text and every previous content of the byte. |
| `MacAddress.MacAddressParse` | ccs_workspace/network_terminal_CC3220SF_LAUNCHXL_tirtos_ccs/network_terminal.c:1335-1387 | The return code and the buffer for every text, including what a failed parse leaves behind. |
| `MacAddress.RoundTripIff` | ccs_workspace/network_terminal_CC3220SF_LAUNCHXL_tirtos_ccs/network_terminal.c:1272-1387 | Parsing the printed text of six bytes always succeeds, and gives the bytes back if and only if the low four bits of each old byte are among the high four bits of the new one. |
| `MacAddress.RoundTripZeroed` | ccs_workspace/network_terminal_CC3220SF_LAUNCHXL_tirtos_ccs/network_terminal.c:1511-1517 | Parsing the printed text into a zeroed buffer gives the same six bytes. |
| `MacAddress.StaleBufferExample` | ccs_workspace/network_terminal_CC3220SF_LAUNCHXL_tirtos_ccs/network_terminal.c:1290-1300 | A buffer that starts with 0x02 spoils an address that starts with 0x10. |
| `MacTexts.AcceptedIff` | ccs_workspace/network_terminal_CC3220SF_LAUNCHXL_tirtos_ccs/network_terminal.c:1335-1387 | Exactly the accepted texts: at most seventeen characters that start with six texts of one or two digits joined by colons. |
| `MacTexts.SixAccepted` | ccs_workspace/network_terminal_CC3220SF_LAUNCHXL_tirtos_ccs/network_terminal.c:1335-1387 | What each of the six texts, of one digit or two, leaves in a buffer of any content. |
| `MacTexts.ZeroedBytes` | ccs_workspace/network_terminal_CC3220SF_LAUNCHXL_tirtos_ccs/network_terminal.c:1272-1317 | In a zeroed buffer every byte is the number of its one or two digits. |
| `MacTexts.FailedTurn` | ccs_workspace/network_terminal_CC3220SF_LAUNCHXL_tirtos_ccs/network_terminal.c:1364-1381 | A parse that fails has stored the bytes before, has or-ed a first good digit into the failing one, and touches none after. |
| `MacTexts.MacLower` | ccs_workspace/network_terminal_CC3220SF_LAUNCHXL_tirtos_ccs/network_terminal.c:1291-1303 | Upper and lower case digits mean the same. |
| `MacTexts.RoundTripBits` | ccs_workspace/network_terminal_CC3220SF_LAUNCHXL_tirtos_ccs/network_terminal.c:1272-1387 | The round trip succeeds if and only if every bit of the low four of each old byte is one of the high four of the new one. |
| `CommandHistory.UsesAreFifo` | ccs_workspace/network_terminal_CC3220SF_LAUNCHXL_tirtos_ccs/uart_term.c:374-450 | After any sequence of pushes and recalls the history holds exactly the FIFO "ignore if present, else append and drop the oldest beyond fifteen", pairwise distinct. |
| `CommandHistory.LastFifteen` | ccs_workspace/network_terminal_CC3220SF_LAUNCHXL_tirtos_ccs/uart_term.c:405-450 | Of different commands the last fifteen are kept, in order. |
| `CommandHistory.NothingChanges` | ccs_workspace/network_terminal_CC3220SF_LAUNCHXL_tirtos_ccs/uart_term.c:411-417 | Entering a command that can still be recalled changes nothing, not even what is in view; nor does a recall from an empty history. |
| `CommandHistory.History.PushCommand` | ccs_workspace/network_terminal_CC3220SF_LAUNCHXL_tirtos_ccs/uart_term.c:405-450 | The wrapping array and its indices keep representing the abstract history. |
| `CommandHistory.History.RetCommand` | ccs_workspace/network_terminal_CC3220SF_LAUNCHXL_tirtos_ccs/uart_term.c:374-389 | Moves the view one entry up or down and returns the entry it then shows. |
| `CommandHistory.PresentIff` | ccs_workspace/network_terminal_CC3220SF_LAUNCHXL_tirtos_ccs/uart_term.c:411-417 | The search over the array finds exactly the recallable entries. |
| `CommandHistory.KthUp` | ccs_workspace/network_terminal_CC3220SF_LAUNCHXL_tirtos_ccs/uart_term.c:374-389 | After a newly stored command the k-th consecutive up-arrow shows the k-th most recent one, cyclically, also after wrapping. |
| `CommandHistory.UpDownInverseIff` | ccs_workspace/network_terminal_CC3220SF_LAUNCHXL_tirtos_ccs/uart_term.c:376-386 | Up and down undo each other if and only if the view is on an entry or the history is empty. |
| `CommandHistory.DownAfterPush` | ccs_workspace/network_terminal_CC3220SF_LAUNCHXL_tirtos_ccs/uart_term.c:444-449 | The first down-arrow after a stored command shows the oldest entry, but the second oldest once the array has wrapped, unless the command filled its last slot. |
| `LineEditor.GetCmd` | ccs_workspace/network_terminal_CC3220SF_LAUNCHXL_tirtos_ccs/uart_term.c:241-354 | For every key stream, history and buffer: the call stays inside the buffer if and only if no command the fold recalls is as long as the buffer or longer, and then the outcome, the line in the buffer and the history are those of a pure editor fold with the limit min(buffer length, 128). |
| `LineEditorKeys.RunOfActions` | ccs_workspace/network_terminal_CC3220SF_LAUNCHXL_tirtos_ccs/uart_term.c:249-348 | The keys of any characters, backspaces, deletes, arrows and other escape sequences do what these actions say, up to Enter, to the limit or to the end of the keys; and the buffer is left exactly when an arrow brings up too long a command. |
| `LineEditorKeys.KeysAreActions` | ccs_workspace/network_terminal_CC3220SF_LAUNCHXL_tirtos_ccs/uart_term.c:249-348 | Every key stream is made of such actions and Enter, the beginning of an escape sequence or nothing. |
| `LineEditorKeys.UpsReturn` | ccs_workspace/network_terminal_CC3220SF_LAUNCHXL_tirtos_ccs/uart_term.c:277-294 | After a stored command, k up-arrows and Enter return the k-th newest entry, cyclically. |
| `LineEditorKeys.UpsThenDown` | ccs_workspace/network_terminal_CC3220SF_LAUNCHXL_tirtos_ccs/uart_term.c:277-313 | k up-arrows, a down-arrow and Enter return the entry after the one reached, and from the newest one the oldest. |
| `LineEditorKeys.DownReturns` | ccs_workspace/network_terminal_CC3220SF_LAUNCHXL_tirtos_ccs/uart_term.c:296-313 | After a stored command a down-arrow and Enter return the oldest entry, or the second oldest once the array has wrapped, unless the command filled its last slot. |
| `LineEditor.OverrunsIff` | ccs_workspace/network_terminal_CC3220SF_LAUNCHXL_tirtos_ccs/uart_term.c:277-312 | A call leaves its buffer in the fold if and only if one of the commands its arrow keys recall is as long as the buffer or longer. |
| `LineEditor.Session` | ccs_workspace/network_terminal_CC3220SF_LAUNCHXL_tirtos_ccs/uart_term.c:241-354 | Over a sequence of calls on one history each call returns what the fold gives, up to the first call, if any, that writes past its buffer. |
| `LineEditor.LongBuffersNeverOverrun` | ccs_workspace/network_terminal_CC3220SF_LAUNCHXL_tirtos_ccs/network_terminal.c:856 | A session of calls whose buffers have 128 characters or more, as at the prompts, is answered to its end without a write past a buffer. |
| `LineEditor.NoEscapeNoOverrun` | ccs_workspace/network_terminal_CC3220SF_LAUNCHXL_tirtos_ccs/uart_term.c:269-316 | A key stream without escape sequences stays inside any buffer. |
| `LineEditor.UpOverruns` | ccs_workspace/network_terminal_CC3220SF_LAUNCHXL_tirtos_ccs/uart_term.c:277-288 | An up-arrow to the newest command leaves the buffer if and only if that command is as long as the buffer or longer. |
| `LineEditor.MenuOverrun` | ccs_workspace/network_terminal_CC3220SF_LAUNCHXL_tirtos_ccs/transceiver_cmd.c:113 | After `radiotool` at the prompt, an up-arrow in the two-character radio menu writes past the menu's buffer. |
| `LineEditor.LimitReached` | ccs_workspace/network_terminal_CC3220SF_LAUNCHXL_tirtos_ccs/uart_term.c:246-260 | The comparison of the signed 8-bit length with the unsigned buffer length stops at exactly that limit. |
| `LineEditor.TypedLine` | ccs_workspace/network_terminal_CC3220SF_LAUNCHXL_tirtos_ccs/uart_term.c:254-346 | A line typed without editing is accepted if and only if it stays below the limit, and is then what was typed. |
| `LineEditor.RubUndoesType` | ccs_workspace/network_terminal_CC3220SF_LAUNCHXL_tirtos_ccs/uart_term.c:319-335 | A backspace undoes the character before it, unless that one filled the line. |
| `LineEditor.RepeatLast` | ccs_workspace/network_terminal_CC3220SF_LAUNCHXL_tirtos_ccs/uart_term.c:277-352 | Up and Enter return the newest command and store nothing. |
| `AxisTransform.TransformAxis` | board_communication/parse_and_plot.py:76-117 | The loops compute the axis of the beacon runs, and fail exactly when there are fewer than two runs or local time stands still over one. |
| `AxisTransform.StartsComplete` | board_communication/parse_and_plot.py:91-99 | Every position where the beacon value changes is listed as a run. |
| `AxisTransform.AxisShape` | board_communication/parse_and_plot.py:103-117 | The axis has one value for each local time from the first run to the start of the last one, and the beacon value at every start. |
| `AxisTransform.AxisLinear` | board_communication/parse_and_plot.py:108-112 | Within each run the values are linear in local time: (value - start beacon) * (end time - start time) == (time - start time) * (end beacon - start beacon). |
| `AxisTransform.AxisUnique` | board_communication/parse_and_plot.py:108-117 | The axis is the only sequence of its length and last value that is linear in every run. |
| `AxisTransform.AxisRises` | board_communication/parse_and_plot.py:103-117 | With rising local time and rising run values the axis exists, rises strictly, and each value lies in its run's half-open interval. |
| `AxisTransform.LocalClockIndependence` | board_communication/parse_and_plot.py:110 | Replacing local time t by a*t + c with a != 0 changes nothing, failures included. |
| `AxisTransform.BeaconClockEquivariance` | board_communication/parse_and_plot.py:110-112 | Where there is an axis, replacing beacon values b by a*b + c with a != 0 maps it the same way if and only if the marker -1 keeps its meaning for the first value. |
| `AxisTransform.BeaconClockEquivarianceIff` | board_communication/parse_and_plot.py:88-112 | Failures included, the result is mapped the same way if and only if the marker keeps its meaning, or the beacon value never changes, or local time stands still between two changes. |
| `AxisTransform.RunsKeptIff` | board_communication/parse_and_plot.py:91-97 | The runs stay where they are under such a change if and only if the marker keeps its meaning. |
| `AxisTransform.MarkerExample` | board_communication/parse_and_plot.py:91-97 | Beacons 0, 1 moved down by one lose their first run to the marker and the call fails. |
| `AxisTransform.BackProject` | board_communication/parse_and_plot.py:18-36 | Both series: each projected time is the reference time minus the local time left until the last of the first n readings, n being the length of the first series, with the values beside them; an IndexError if and only if the second series is shorter. |

## Left out

- SimpleLink, UART, I2C, GPIO and socket calls, waiting times and printing.
- `sock.sendto` of the UDP round is not a step of its own, and its failure is not modelled.
- `send_msg_to_all_boards_mac`, the streaming worker, and boards that register while a round is open or register twice.
- Partial TCP sends and receives; one message is delivered whole, and the failure exits of `test_time_beac_sync` are not modelled.
- `parse_beacon_frame`: its timestamp loop shifts by 32 bits, which C leaves undefined; beacons arrive decoded.
- `plot_tcp_data`, `assemble_data_for_plot` and everything plotted: their field indices run past the split.
- Floating-point rounding and NaN in `transform_axis`; numbers are reals.
- Failed allocation in the history; `strcmp` with an empty slot is no match.
- `GetCmd`: what happens after a write past the buffer is not modelled; the call ends there.
- `MacAddressParse`: the text is given with the memory behind it; past the end of that every character reads as NUL.
- `PyInt`: decimal digits other than 0 to 9 and texts of more than 4300 digits.
- Command option parsers, WLAN, radio and P2P commands, websites and PCB files: plumbing that would only add easy members.
