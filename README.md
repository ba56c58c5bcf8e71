# tinymudserver session core in Dafny

This project models the in-memory session logic of `tinymudserver.cpp`, a small
single-threaded MUD server, and proves properties of that model. The sockets are
replaced by inputs.

The parts modelled are:
- the string helpers `Trim` and `GetWord`;
- the line framer that `ProcessRead` runs over `tPlayer::inbuf`;
- the outbound queue that `ProcessWrite` drains;
- the login dialog (`ProcessPlayerName`, `ProcessPlayerPassword`);
- the command dispatcher (`ProcessCommand` with `DoQuit`, `DoLook`, `DoSay` and `DoTell`);
- the player-list operations `FindPlayer`, `Send`, `SendToAll` and `ClosePlayer`;
- the reaping loop and the periodic tick of `MainLoop`;
- the greeting of a newly accepted connection.

Modules, leaf first:
- `Wrappers` holds `Option`.
- `Text` holds `Trim`, `GetWord`, and the `string::find` family they are built on.
- `Framing` holds `Split`, the cutting of a buffer into `'\n'`-terminated lines, and the fragmentation lemmas.
- `Outbound` holds `Flush`, `ProcessWrite` as a function of the queue and of the answers `write()` gives, and byte conservation.
- `Session` is the value model.
  - The player list is a `seq<Conn>`, and a player is named by its position in it.
  - Every handler is a function from the old list to the new one.
  - Lemmas state what each handler does.
  - `Evolves` is the invariant a line of input keeps: other players only receive output, and the login state never goes back.
- `Server` is the imperative model.
  - `Player` is `tPlayer` with its fields updated in place.
  - `Server` holds the player list and `tLastMessage`.
  - Each handler is a method whose `ensures` ties the new list, seen through `View()`, to the `Session` function it is proved equal to:
    - `ProcessPlayerName` to `NameStep`, `ProcessPlayerPassword` to `PasswordStep`;
    - `DoLook` to `Look`, `DoSay` to `Say`, `DoTell` to `Tell` (its second half, the method `TellTo`, to the function `TellTo`), `DoQuit` to `Quit`;
    - `ProcessCommand` to `Command`, `ProcessPlayerInput` to `Input`, `ProcessRead` to `ReadStep`;
    - `SendTo` to `Send`, `SendToAll` to `Broadcast`, `ClosePlayer` to `Close`, `WriteTo` and `Player.ProcessWrite` to `FlushConn`;
    - `FindPlayer` to `Find`, `Reap` to `Reap`.

## Modelling decisions
- The socket descriptor is modelled as `open: bool`, where `s != NO_SOCKET` means open.
- One Dafny `char` stands for one byte of a `std::string`. So the count `write()` returns and the offset in `&outbuf[nWrite]` are character positions in the model.
- Pointer comparisons become index comparisons. `p == ptarget` and `p != ExceptThis` are compared by position, which is sound because `Server.Valid()` keeps the objects in `players` distinct.
- Messages are already-formatted strings. Each `%s` message of the catalogue is a function of its arguments with the same text.
- `write()` is an oracle: a sequence of answers consumed one per call.
  - A negative answer means the write failed or would block.
  - An answer of at least the chunk length is a full write.
  - Once the answers are used up, every write would block.
  - Every operation that may flush returns the bytes written and the answers it left unused.
- `read()` is a `ReadResult`: `ReadError` (`-1`, `EWOULDBLOCK` included) or `Received(data)`. `Received([])` is end of file.
- The wall clock is a parameter: `now` for the tick, and the start time for the constructor.

Behaviours of the code that are easy to miss, which the model keeps:
- A read error or a failed write does not close the connection.
  - A failed write only puts the chunk back (lines 702-709).
  - A read error only returns (lines 648-653).
- The carriage return removed is the first `'\r'` anywhere in the line, after trimming (lines 546-548, 676). It is not necessarily a trailing one.
- Names are not unique among Playing connections. The check at name entry only looks at Playing connections, so two connections that enter the same name before either gives the password both get in (`Session.DuplicateNamesReachable`).
- `quit` forces one `ProcessWrite`, which may leave part of the farewell unsent, and then closes the socket. `Session.QuitEffects` states what was written plus what is left queued. It does not claim everything was written.
- Lines after `quit` in the same read are still dispatched, and the departed player's `say` still reaches the others (`Session.SpeechAfterQuit`).
- `ClosePlayer` leaves the login state at Playing, so a second `quit` in the same read announces the departure again (`Session.DoubleQuitAnnounced`).
- A NUL byte inside a read ends what that read adds to the buffer. So the way bytes are cut into reads matters once a NUL is among them (`Framing.NulBreaksFragmentation`).

## Model

| member | source | states |
|---|---|---|
| Text.IndexOf | tinymudserver.cpp:397 | `string::find(c)`: None exactly when `c` does not occur; otherwise the index of an occurrence with none before it |
| Text.FirstNotOf | tinymudserver.cpp:178 | `find_first_not_of(c)`: None exactly when every character is `c`; otherwise the first index holding another character |
| Text.LastNotOf | tinymudserver.cpp:183 | `find_last_not_of(c)`: None exactly when every character is `c`; otherwise the last index holding another character |
| Text.Trim | tinymudserver.cpp:176-187 | the result is empty exactly when the string is all spaces; it has no leading or trailing space; it is a substring of the input with only spaces before and after it |
| Text.TrimFixed | tinymudserver.cpp:176-187 | a string without edge spaces is unchanged by Trim |
| Text.TrimIdempotent | tinymudserver.cpp:176-187 | trimming a trimmed string changes nothing |
| Text.TrimPadding | tinymudserver.cpp:176-187 | Trim of a text padded with spaces on both sides is exactly that text |
| Text.GetWord | tinymudserver.cpp:392-414 | the word has no space; the rest has no edge spaces; with no space in the line the word is the whole line and the rest is empty; otherwise the word is the text before the first space and the rest is the trimmed text after it |
| Text.GetWordAlone | tinymudserver.cpp:392-414 | a line without a space is the word, with an empty rest |
| Text.GetWordJoin | tinymudserver.cpp:392-414 | a verb and a trimmed argument joined by one space split back into exactly that verb and that argument |
| Text.EraseFirst | tinymudserver.cpp:546-548 | without `c` the line is unchanged; with `c` exactly one character, the first `c`, is removed and everything around it is kept |
| Text.EraseTrailing | tinymudserver.cpp:546-548 | a line whose only carriage return is its last character loses exactly that character |
| Framing.SplitSound | tinymudserver.cpp:666-679 | after the line loop the buffer holds no `'\n'`, no extracted line holds one, and the lines, each followed by `'\n'`, then the buffer, are exactly the old buffer |
| Framing.SplitStep | tinymudserver.cpp:669-674 | one pass of the loop takes the text before the first `'\n'` and continues after it |
| Framing.SplitNone | tinymudserver.cpp:669-671 | a buffer without `'\n'` yields no line and stays as it is |
| Framing.SplitJoin | tinymudserver.cpp:666-679 | newline-free lines and a newline-free tail are recovered exactly from their bytes |
| Framing.Split | tinymudserver.cpp:666-679 | its own contract: no `'\n'` is left in the buffer, and there are no more lines than bytes; the full behaviour is in `SplitSound` and `SplitJoin` |
| Framing.ConcatReads | tinymudserver.cpp:662-664 | its own contract: what a series of reads adds to the buffer holds no NUL; its value for NUL-free reads is in `ConcatReadsNulFree` |
| Framing.FeedAll | tinymudserver.cpp:662-679 | its own contract: after at least one read that brings data, no `'\n'` is left in the buffer; the framing is in `FeedAllIsOneFeed` and `FeedAllNulFree` |
| Framing.SplitFeeds | tinymudserver.cpp:664-679 | two reads in a row yield the same lines and leftover as both reads at once |
| Framing.FeedAllIsOneFeed | tinymudserver.cpp:662-679 | from a buffer without a complete line, feeding reads one after another, each cut at its first NUL, yields the same lines and the same leftover as feeding everything they add at once |
| Framing.ConcatReadsNulFree | tinymudserver.cpp:662-664 | reads without NUL bytes add exactly their bytes: their plain concatenation |
| Framing.FeedAllNulFree | tinymudserver.cpp:662-679 | from a buffer without a complete line, NUL-free reads, however the stream is cut into them, frame exactly like one read of the whole stream |
| Framing.FeedAllCuttingIrrelevant | tinymudserver.cpp:662-679 | two cuttings of one NUL-free byte stream into reads yield the same lines and the same leftover |
| Framing.NulBreaksFragmentation | tinymudserver.cpp:662-664 | one read of "a\0b\n" yields no line and leaves "a", while the reads "a\0" and "b\n" yield the line "ab" |
| Framing.UpToNul | tinymudserver.cpp:662-664 | what `inbuf += buf` appends: the data before its first NUL, or all of it when there is no NUL |
| Framing.TrimAll | tinymudserver.cpp:676 | every extracted line is trimmed, in order, and no line is added or dropped |
| Outbound.FlushConserves | tinymudserver.cpp:687-721 | the bytes written, followed by the bytes still queued, are exactly the bytes queued before |
| Outbound.FlushShape | tinymudserver.cpp:687-721 | the queue left is empty, with everything written, or it is the old queue from some chunk k on, where only chunk k is cut to its unsent suffix and exactly the bytes before that point were written |
| Outbound.FlushFailure | tinymudserver.cpp:702-710 | a negative answer leaves the queue exactly as it was and writes nothing |
| Outbound.FlushUsesAnswers | tinymudserver.cpp:690-719 | one write call per chunk at most: the answers left are a suffix of the answers given, shorter by at most the number of chunks |
| Outbound.Flush | tinymudserver.cpp:687-721 | its own contract: the queue never grows; conservation and the shape of what is left are in `FlushConserves` and `FlushShape` |
| Outbound.RunConserves | tinymudserver.cpp:687-721 | however sends and partial writes interleave, the bytes written, followed by what is still queued, are the queued messages in order |
| Session.FindFrom | tinymudserver.cpp:193-202 | a position found from k on holds an open, Playing connection with the name |
| Session.FindFromSound | tinymudserver.cpp:193-202 | nobody between k and the position found has the name; when nothing is found nobody from k on has it |
| Session.Find | tinymudserver.cpp:191-203 | the position found holds an open, Playing connection with that name |
| Session.FindSound | tinymudserver.cpp:191-203 | the first such connection is found, and none is found exactly when no open, Playing connection has the name |
| Session.Queued | tinymudserver.cpp:280-297 | `Send` on one tPlayer: the socket, the login state and the name are kept, and the queue grows by the messages exactly when the socket is open; `QueuedTwice` states that two sends queue both in order |
| Session.SendAll | tinymudserver.cpp:280-297 | its own contract: the list keeps its length; the messages go to connection i through `Queued`, and `SendAllEvolves` states that sending only adds output and changes no socket, state or name |
| Session.Send | tinymudserver.cpp:280-297 | its own contract: the list keeps its length; `SendTwice` and `SendToClosed` state the rest |
| Session.Broadcast | tinymudserver.cpp:301-325 | its own contract: the list keeps its length; who receives what is in `BroadcastExact` |
| Session.Close | tinymudserver.cpp:327-333 | its own contract: the list keeps its length; `Server.Server.ClosePlayer` and `QuitEffects` state what closing changes |
| Session.FlushConn | tinymudserver.cpp:687-721 | the queue never grows, and a closed connection writes nothing and uses no write answer; the open case is `Outbound.Flush` |
| Session.OthersUpToOnly | tinymudserver.cpp:443-456 | every name look lists belongs to another open, Playing connection |
| Session.OthersUpToExact | tinymudserver.cpp:443-456 | the listing is the names at strictly increasing positions, which are exactly the positions of the other open, Playing connections: each is listed once, in list order |
| Session.OthersUpToListed | tinymudserver.cpp:443-456 | every other open, Playing connection among the first n is listed by look |
| Session.OthersUpTo | tinymudserver.cpp:443-456 | its own contract: no more names than connections scanned; which names is in `OthersUpToOnly`, `OthersUpToExact` and `OthersUpToListed` |
| Session.Others | tinymudserver.cpp:443-456 | its own contract: no more names than connections; the full scan of `OthersUpTo` |
| Session.Listing | tinymudserver.cpp:450-454 | two pieces per listed name, a separator and the name; the text is in `ListingText` |
| Session.LookLines | tinymudserver.cpp:435-462 | the room description comes first; one piece only when nobody else is there, otherwise the separators, the names and the period; the text is in `LookText` |
| Session.Look | tinymudserver.cpp:435-462 | its own contract: the list keeps its length; what is queued is in `LookText` and `OthersUpToExact` |
| Session.LookStepListed | tinymudserver.cpp:446-455 | a listed player adds IN_THE_ROOM before the first name and ", " before any other |
| Session.LookStepSkipped | tinymudserver.cpp:446-448 | the sender itself, a closed connection, or one that is not Playing adds nothing |
| Session.LookText | tinymudserver.cpp:435-462 | the text look sends is the room description, then "You also see ", the names joined by ", " and a period when anyone else is there, and nothing more otherwise |
| Session.ListingText | tinymudserver.cpp:450-454 | the listing is IN_THE_ROOM followed by the names joined with ", " |
| Session.OthersIgnoresSelf | tinymudserver.cpp:446 | a change to the looking connection itself does not change whom it sees |
| Session.SendToClosed | tinymudserver.cpp:282-283 | Send to a closed socket changes nothing |
| Session.BroadcastExact | tinymudserver.cpp:301-325 | SendToAll appends the message to exactly the open, Playing connections other than the excepted one; nothing else changes |
| Session.ReapSound | tinymudserver.cpp:757-769 | after reaping no connection is closed, every open one is still there, and the list is not longer |
| Session.ReapAppend | tinymudserver.cpp:757-769 | reaping keeps the order: the survivors of two lists are the survivors of each, one after the other |
| Session.ReapDropClosed | tinymudserver.cpp:761-765 | erasing one closed player, as each pass does, does not change what reaping ends with |
| Session.ReapAllOpen | tinymudserver.cpp:757-769 | a list without closed players is left as it is |
| Session.Reap | tinymudserver.cpp:757-769 | its own contract: the list does not grow; what survives, in what order, is in `ReapSound` and `ReapAppend` |
| Session.NameStepEffects | tinymudserver.cpp:335-359 | an empty name only re-prompts; a name held by an open, Playing connection gets ALREADY_CONNECTED and the prompt; any other name is stored, the state becomes AwaitingPassword and the password is asked for; nobody else is touched |
| Session.NameStep | tinymudserver.cpp:335-359 | its own contract: the list keeps its length; the effects are in `NameStepEffects` |
| Session.BlankNameRejected | tinymudserver.cpp:337-342 | a name of spaces only, once trimmed, leaves the connection in AwaitingName with only the name prompt queued |
| Session.SecondLoginRejected | tinymudserver.cpp:344-350 | logging in under the name of an open, Playing connection is refused and the state stays AwaitingName |
| Session.PasswordStepEffects | tinymudserver.cpp:361-388 | an empty or wrong password only re-prompts; the right one makes the connection Playing, queues WELCOME then the look output to it, and the join notice to exactly the other open, Playing connections |
| Session.PasswordStep | tinymudserver.cpp:361-388 | its own contract: the list keeps its length; the effects are in `PasswordStepEffects` |
| Session.SayEffects | tinymudserver.cpp:466-475 | empty text gets "Say what?" only; otherwise the sender gets its echo and exactly the other open, Playing connections hear it |
| Session.Say | tinymudserver.cpp:466-475 | its own contract: the list keeps its length; the effects are in `SayEffects` |
| Session.TellEffects | tinymudserver.cpp:479-517 | the checks come in order (Tell whom, Tell X what, not connected, not yourself), each failure queues one message to the sender only, and only when all pass is one message queued to the sender and one to the target |
| Session.TellDelivered | tinymudserver.cpp:514-515 | when every check passes, the confirmation goes to the sender and then the message to the target |
| Session.TellWithoutText | tinymudserver.cpp:492-496 | "tell alice" yields "Tell alice what?" and delivers nothing |
| Session.TellAbsent | tinymudserver.cpp:500-506 | "tell bob hello" with bob not connected yields "bob is not connected." to the sender only |
| Session.Tell | tinymudserver.cpp:479-517 | its own contract: the list keeps its length; the effects are in `TellEffects` |
| Session.TellTo | tinymudserver.cpp:500-517 | its own contract: the list keeps its length; it is the part of `Tell` after the word and the text are split off, so its effects are the last three cases of `TellEffects` |
| Session.QuitEffects | tinymudserver.cpp:418-431 | from Playing the departure notice reaches every other open, Playing connection once, the leaver is closed, and what was written plus what is still queued is its old queue plus FINAL_STRING; from any other state the connection is only closed |
| Session.Quit | tinymudserver.cpp:418-431 | its own contract: the list keeps its length; the effects are in `QuitEffects` |
| Session.UnknownVerb | tinymudserver.cpp:534-535 | any verb other than quit, look, say and tell gets "Huh?" only |
| Session.Command | tinymudserver.cpp:521-537 | its own contract: the list keeps its length; the dispatch is stated in `UnknownVerb` and `CommandEvolves`, and the handlers' effects in their own lemmas |
| Session.CommandEvolves | tinymudserver.cpp:521-537 | a command only adds output to other connections and keeps the sender Playing under the same name |
| Session.InputEvolves | tinymudserver.cpp:541-572 | one line of input never moves a connection back in the login dialog, never reopens it, and only adds output to the others |
| Session.InputAllEvolves | tinymudserver.cpp:666-679 | the same holds for all the lines of one read |
| Session.InputAllKeepsNamed | tinymudserver.cpp:335-359 | no connection gets past the name prompt without a non-empty name |
| Session.Input | tinymudserver.cpp:541-572 | its own contract: the list keeps its length; `InputEvolves` states the invariant it keeps |
| Session.InputAll | tinymudserver.cpp:666-679 | its own contract: the list keeps its length; `InputAllEvolves` and `InputAllKeepsNamed` state the invariants it keeps |
| Session.ReadEvolves | tinymudserver.cpp:641-681 | a read keeps the input invariant and the non-empty-name invariant, and after data arrives no `'\n'` is left in the buffer |
| Session.ReadIsDrain | tinymudserver.cpp:662-679 | a read that brings data is the line loop run over the extended buffer |
| Session.ReadLineStep | tinymudserver.cpp:669-677 | handling the first line leaves exactly the lines after it to be handled |
| Session.DrainDone | tinymudserver.cpp:669-671 | with no `'\n'` left the loop ends and the buffer is kept |
| Session.ReadStep | tinymudserver.cpp:641-681 | its own contract: the list keeps its length; `ReadEvolves` and `ReadIsDrain` state the rest |
| Session.SpeechAfterQuit | tinymudserver.cpp:667-679 | a "say" on the line after "quit" in the same read still reaches every other open, Playing connection, after the departure notice |
| Session.DoubleQuitAnnounced | tinymudserver.cpp:418-431 | two "quit" lines in one read from a Playing connection give every other open, Playing connection the departure notice twice |
| Session.DuplicateNamesReachable | tinymudserver.cpp:344-350 | two connections can both reach Playing under the same name |
| Session.NewConn | tinymudserver.cpp:613-625 | a new connection is open, waits for a name with an empty name, and has the banner and the name prompt queued |
| Session.TicksSpaced | tinymudserver.cpp:749-753 | tick messages are sent more than MESSAGE_INTERVAL after the last one and more than MESSAGE_INTERVAL apart, however often the loop runs |
| Session.TickTimes | tinymudserver.cpp:749-753 | its own contract: no more ticks than loop passes; `TickDue` is the test, and the spacing is in `TicksSpaced` |
| Server.Player.constructor | tinymudserver.cpp:148-153 | a new tPlayer has no socket, waits for a name, and has an empty name and empty buffers |
| Server.Player.Send | tinymudserver.cpp:280-297 | the message is appended to the queue of an open player; a closed one is unchanged |
| Server.Player.Close | tinymudserver.cpp:327-333 | the socket is closed and nothing else changes |
| Server.Player.ProcessWrite | tinymudserver.cpp:687-721 | the loop writes what `Flush` says and leaves the queue `Flush` leaves; a closed player writes nothing |
| Server.OpenPlayers | tinymudserver.cpp:757-769 | its own contract: the list does not grow; it keeps the open objects in order, as `OpenPlayersAppend`, `OpenPlayersDropClosed` and `OpenPlayersAllOpen` state |
| Server.OpenPlayersAppend | tinymudserver.cpp:757-769 | the open objects of two lists are those of each, one after the other |
| Server.OpenPlayersDropClosed | tinymudserver.cpp:761-765 | erasing one closed object does not change the open objects |
| Server.OpenPlayersAllOpen | tinymudserver.cpp:757-769 | a list of open objects is its own open part |
| Server.SnapshotsOfOpen | tinymudserver.cpp:757-769 | what the session logic sees of the open objects is `Session.Reap` of what it sees of all of them |
| Server.Server.constructor | tinymudserver.cpp:256 | no players, and the tick clock starts at the given time |
| Server.Server.FindPlayer | tinymudserver.cpp:191-203 | the loop returns the position `Find` describes |
| Server.Server.SendTo | tinymudserver.cpp:280-297 | one player gets the message; the rest of the list is unchanged |
| Server.Server.WriteTo | tinymudserver.cpp:687-721 | ProcessWrite on one player of the list; the others are unchanged |
| Server.Server.ClosePlayer | tinymudserver.cpp:327-333 | one player is closed; the rest of the list is unchanged |
| Server.Server.SendToAll | tinymudserver.cpp:301-325 | the loop changes the list exactly as `Broadcast` does |
| Server.Server.DoLook | tinymudserver.cpp:435-462 | the loop queues exactly the look output `Look` describes |
| Server.Server.ProcessPlayerName | tinymudserver.cpp:335-359 | the handler changes the list exactly as `NameStep` does |
| Server.Server.ProcessPlayerPassword | tinymudserver.cpp:361-388 | the handler changes the list exactly as `PasswordStep` does |
| Server.Server.DoQuit | tinymudserver.cpp:418-431 | the list, the bytes written and the unused answers are as `Quit` says |
| Server.Server.DoSay | tinymudserver.cpp:466-475 | the handler changes the list exactly as `Say` does |
| Server.Server.DoTell | tinymudserver.cpp:479-517 | the handler changes the list exactly as `Tell` does |
| Server.Server.TellTo | tinymudserver.cpp:500-517 | the lookup of the target and the delivery change the list exactly as `Session.TellTo` does |
| Server.Server.ProcessCommand | tinymudserver.cpp:521-537 | the dispatch is `Command` |
| Server.Server.ProcessPlayerInput | tinymudserver.cpp:541-572 | the handler is `Input`: the first `'\r'` is erased, then the handler for the login state runs |
| Server.Server.ProcessRead | tinymudserver.cpp:641-681 | the list, the bytes written and the buffer left are as `ReadStep` says: nothing on an error, DoQuit at end of file, otherwise every complete line trimmed and handled in turn |
| Server.Server.Reap | tinymudserver.cpp:757-769 | the restarting loop leaves exactly the open Player objects, in their old order, so each keeps its own input buffer; their view is `Session.Reap` of the old list |
| Server.Server.Tick | tinymudserver.cpp:749-753 | when more than MESSAGE_INTERVAL seconds have passed, the tick message is broadcast to every open, Playing player and the clock is set to now; otherwise nothing changes |
| Server.Server.Accept | tinymudserver.cpp:613-625 | a new open player in AwaitingName is appended to the list with the banner and the name prompt queued |

## Left out
- Socket setup and teardown (`InitComms`, `CloseComms`), `select` and the readiness sets, and the `accept` and `fcntl` failure paths of `ProcessNewConnection`: these are OS I/O. `Accept` models one successful accept.
- The main loop around the handlers, `ProcessException` (only logs), signal handling (`bailout`, `bStopNow`) and the shutdown sequence in `main` (the SHUTDOWN broadcast and the last flush): these are process control. Each handler is modelled on its own.
- Logging with `printf`, `perror` and `fprintf`: it has no effect on the session state.
- `vsnprintf` formatting into the 1000-byte `SendBuffer`:
  - the messages are given as formatted strings;
  - the truncation of long messages and the `iSent == -1` path are not modelled;
  - nor is `DoLook` passing a player name as a format string.
- The 999-byte limit of one `read()`: a `Received` chunk may have any length.
- `Server.Player.ProcessWrite`: the NUL truncation of `push_front(&outbuf[nWrite])` is not modelled. No queued message holds a NUL, because input is cut at the first NUL and the messages are NUL-free.
- `new`, `delete` and the destructor: closing is `open := false`, and reaping drops the object from the list.
- The address and port of a connection: they are informational only.
- The `default` branch of `ProcessPlayerInput`: it cannot be reached with the three-state datatype.
- `time()`: it is called twice in the tick check, and the model takes one reading `now` as a parameter.
