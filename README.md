# Directory sync and NetPong, modelled in Dafny

This project models the two programs of a networking assignment and proves
properties of the model.

The first program is a directory synchroniser.
- The server (`ex1/syncserver.c`) watches a directory tree with inotify.
- It keeps a table of at most ten client slots.
- It sends each client the directory's current contents on connection.
- It then sends one notice per `CREATE`, `DELETE`, `MOVED_FROM` and `MOVED_TO` event.
- A created file is followed by a `FILE <name>` header and the file's bytes.
- Each client has a comma-separated ignore list that filters the names it is sent.
- The client (`ex1/syncclient.c`) reads its ignore list from the first line of a file.
- It parses each message as two tokens and applies it to its local directory.

The second program is NetPong, a two-player pong game.
- The server (`ex2/p_server.c`) moves the ball and the top paddle.
- It streams the state as five comma-separated integers in a 256-byte packet.
- The client (`ex2/p_client.c`) parses each packet with `sscanf` and shows the state.
- It sends its own paddle position back as a raw `int` after every key.

How the model is laid out:
- `ctext.dfy` (`CText`) holds the C string conventions shared by all four programs: NUL termination, `snprintf` truncation, white space.
- `decimal.dfy` (`Decimal`) holds `%d` printing and scanning.
- `socket.dfy` (`Socket`) models a stream socket. It is the sequence of chunks still to arrive. `recv` of `n` bytes takes at most `n` bytes of the first chunk.
- `ignore_filter.dfy` (`IgnoreFilter`) is `is_ignored`.
- `sync_server.dfy` (`SyncServer`) models the server. It is a class over the slot table, each slot's outgoing traffic, the watch set and `client_count`.
- `sync_client.dfy` (`SyncClient`) models the client. It is a function from a `Local` world (the local tree, the socket, the disk's free space, the printed lines, the exit status) to the next world. Methods with the source's loops are proved equal to those functions.
- `pong_wire.dfy` (`PongWire`) is the state packet: its format and its parse.
- `pong_controls.dfy` (`PongControls`) is paddle steering, shared by both NetPong programs.
- `pong_server.dfy` (`PongServer`) models the server: the ball physics as functions, and a `Game` class whose methods are the server's threads, one iteration run after another.
- `pong_client.dfy` (`PongClient`) models the client: a `Client` class whose methods are its two threads.

Inputs that are not computed by the model:
- The file system (the directory listing, the files' contents, the existing directories) is a parameter.
- So are the inotify events, the keys pressed and the free disk space.
- Each socket's arrivals are a parameter too.
- What a program sends is a sequence the model appends to.

Three behaviours follow the code where a simpler reading of the protocol would say otherwise:
- A first token longer than 15 characters is not rejected by the client. `%15s` splits it, and the tail becomes the file name (`SyncClient.LongCommandIsSplit`).
- The server builds an event's path as the synchronised directory, a slash and the event's name, even for an event from a watched subdirectory. A file created in a subdirectory is therefore filtered and opened under a top-level path that it does not have (`SyncServer.PathOf`, used by `SyncServer.EventTraffic`).
- A client's file bytes that arrive in the same `recv` as their `FILE` header are reduced to the message's second token. `receive_file` then reads only what arrives after that.

## Model

| member | source | states |
|---|---|---|
| CText.CString | Programming_Assignment_2/CS3205_Assignment2_NS25Z022_NS25Z035_DA24E001/CS3205_Assignment2_NS25Z022_NS25Z035_DA24E001/ex1/syncclient.c:124 | the C string of a buffer is a prefix of it, holds no NUL and stops exactly at the first NUL |
| CText.CStringOfPlain | Programming_Assignment_2/CS3205_Assignment2_NS25Z022_NS25Z035_DA24E001/CS3205_Assignment2_NS25Z022_NS25Z035_DA24E001/ex2/p_client.c:139 | text without a NUL is its own C string |
| CText.Snprintf | Programming_Assignment_2/CS3205_Assignment2_NS25Z022_NS25Z035_DA24E001/CS3205_Assignment2_NS25Z022_NS25Z035_DA24E001/ex1/syncserver.c:87 | `snprintf` output is a prefix of the text, shorter than the buffer; the whole text when it fits, otherwise exactly size - 1 characters |
| CText.SpaceRun | Programming_Assignment_2/CS3205_Assignment2_NS25Z022_NS25Z035_DA24E001/CS3205_Assignment2_NS25Z022_NS25Z035_DA24E001/ex1/syncclient.c:129 | counts exactly the leading white space |
| CText.WordRun | Programming_Assignment_2/CS3205_Assignment2_NS25Z022_NS25Z035_DA24E001/CS3205_Assignment2_NS25Z022_NS25Z035_DA24E001/ex1/syncclient.c:129 | counts exactly the leading non-space characters |
| Decimal.DigitChar | Programming_Assignment_2/CS3205_Assignment2_NS25Z022_NS25Z035_DA24E001/CS3205_Assignment2_NS25Z022_NS25Z035_DA24E001/ex2/p_server.c:279 | a digit value is printed as a decimal digit character |
| Decimal.DigitValue | Programming_Assignment_2/CS3205_Assignment2_NS25Z022_NS25Z035_DA24E001/CS3205_Assignment2_NS25Z022_NS25Z035_DA24E001/ex2/p_client.c:142 | reading a digit character back gives a value below 10 that prints as that digit |
| Decimal.NatToString | Programming_Assignment_2/CS3205_Assignment2_NS25Z022_NS25Z035_DA24E001/CS3205_Assignment2_NS25Z022_NS25Z035_DA24E001/ex2/p_server.c:279-280 | a natural number prints as a non-empty run of digits |
| Decimal.IntToString | Programming_Assignment_2/CS3205_Assignment2_NS25Z022_NS25Z035_DA24E001/CS3205_Assignment2_NS25Z022_NS25Z035_DA24E001/ex2/p_server.c:279-280 | `%d` output is non-empty, ends in a digit, and holds only digits after an optional leading '-' |
| Decimal.DigitRun | Programming_Assignment_2/CS3205_Assignment2_NS25Z022_NS25Z035_DA24E001/CS3205_Assignment2_NS25Z022_NS25Z035_DA24E001/ex2/p_client.c:142 | the length of the leading run of digits, exactly |
| Decimal.ScanInt | Programming_Assignment_2/CS3205_Assignment2_NS25Z022_NS25Z035_DA24E001/CS3205_Assignment2_NS25Z022_NS25Z035_DA24E001/ex2/p_client.c:142 | a successful `%d` consumes at least one character and stops before any further digit |
| Decimal.NatToStringValue | Programming_Assignment_2/CS3205_Assignment2_NS25Z022_NS25Z035_DA24E001/CS3205_Assignment2_NS25Z022_NS25Z035_DA24E001/ex2/p_server.c:279 | the digits printed for n read back as n |
| Decimal.DigitRunOf | Programming_Assignment_2/CS3205_Assignment2_NS25Z022_NS25Z035_DA24E001/CS3205_Assignment2_NS25Z022_NS25Z035_DA24E001/ex2/p_client.c:142 | digits followed by a non-digit split into exactly those digits and the rest |
| Decimal.DigitRunOfFrom | Programming_Assignment_2/CS3205_Assignment2_NS25Z022_NS25Z035_DA24E001/CS3205_Assignment2_NS25Z022_NS25Z035_DA24E001/ex2/p_client.c:142 | the digit run of digits followed by a non-digit is the digits' length |
| Decimal.ScanIntToString | Programming_Assignment_2/CS3205_Assignment2_NS25Z022_NS25Z035_DA24E001/CS3205_Assignment2_NS25Z022_NS25Z035_DA24E001/ex2/p_client.c:142 | `%d` reads back every printed int and leaves the following text untouched |
| Decimal.ScanNonNegative | Programming_Assignment_2/CS3205_Assignment2_NS25Z022_NS25Z035_DA24E001/CS3205_Assignment2_NS25Z022_NS25Z035_DA24E001/ex2/p_client.c:142 | the round trip for non-negative values |
| Decimal.ScanNegative | Programming_Assignment_2/CS3205_Assignment2_NS25Z022_NS25Z035_DA24E001/CS3205_Assignment2_NS25Z022_NS25Z035_DA24E001/ex2/p_client.c:142 | the round trip for negative values |
| Decimal.ScanMinus | Programming_Assignment_2/CS3205_Assignment2_NS25Z022_NS25Z035_DA24E001/CS3205_Assignment2_NS25Z022_NS25Z035_DA24E001/ex2/p_client.c:142 | after '-' the conversion reads the digit run and negates it, and fails when no digit follows |
| Decimal.NatToStringLength | Programming_Assignment_2/CS3205_Assignment2_NS25Z022_NS25Z035_DA24E001/CS3205_Assignment2_NS25Z022_NS25Z035_DA24E001/ex2/p_server.c:272-280 | a number below 10^k prints in at most k digits |
| Decimal.Int32Length | Programming_Assignment_2/CS3205_Assignment2_NS25Z022_NS25Z035_DA24E001/CS3205_Assignment2_NS25Z022_NS25Z035_DA24E001/ex2/p_server.c:279-280 | a C `int` prints in at most 11 characters |
| Socket.Receive | Programming_Assignment_2/CS3205_Assignment2_NS25Z022_NS25Z035_DA24E001/CS3205_Assignment2_NS25Z022_NS25Z035_DA24E001/ex1/syncclient.c:100 | `recv` returns at most n bytes; what it returns followed by what is still pending is what was pending; it returns nothing exactly when the peer has closed; a short read is a whole chunk |
| IgnoreFilter.FieldLength | Programming_Assignment_2/CS3205_Assignment2_NS25Z022_NS25Z035_DA24E001/CS3205_Assignment2_NS25Z022_NS25Z035_DA24E001/ex1/syncserver.c:59 | the length of the text before the first comma |
| IgnoreFilter.Tokens | Programming_Assignment_2/CS3205_Assignment2_NS25Z022_NS25Z035_DA24E001/CS3205_Assignment2_NS25Z022_NS25Z035_DA24E001/ex1/syncserver.c:59-65 | every `strtok` token is non-empty and holds no comma |
| IgnoreFilter.NextToken | Programming_Assignment_2/CS3205_Assignment2_NS25Z022_NS25Z035_DA24E001/CS3205_Assignment2_NS25Z022_NS25Z035_DA24E001/ex1/syncserver.c:59-65 | one `strtok` call returns the next token and the rest of the list yields the remaining tokens; no token means none remain |
| IgnoreFilter.Fields | Programming_Assignment_2/CS3205_Assignment2_NS25Z022_NS25Z035_DA24E001/CS3205_Assignment2_NS25Z022_NS25Z035_DA24E001/ex1/syncserver.c:59 | splitting on commas gives at least one field |
| IgnoreFilter.NonEmpty | Programming_Assignment_2/CS3205_Assignment2_NS25Z022_NS25Z035_DA24E001/CS3205_Assignment2_NS25Z022_NS25Z035_DA24E001/ex1/syncserver.c:59 | keeps exactly the non-empty fields |
| IgnoreFilter.MatchesCons | Programming_Assignment_2/CS3205_Assignment2_NS25Z022_NS25Z035_DA24E001/CS3205_Assignment2_NS25Z022_NS25Z035_DA24E001/ex1/syncserver.c:60-66 | a name matches a token list when it contains the first token or matches the rest |
| IgnoreFilter.TokensAreNonEmptyFields | Programming_Assignment_2/CS3205_Assignment2_NS25Z022_NS25Z035_DA24E001/CS3205_Assignment2_NS25Z022_NS25Z035_DA24E001/ex1/syncserver.c:59-65 | the `strtok` tokens are the list's non-empty comma-separated fields, in order |
| IgnoreFilter.IgnoredIff | Programming_Assignment_2/CS3205_Assignment2_NS25Z022_NS25Z035_DA24E001/CS3205_Assignment2_NS25Z022_NS25Z035_DA24E001/ex1/syncserver.c:58-68 | a name is ignored if and only if some non-empty field of the list is a substring of it |
| IgnoreFilter.CommasOnlyHaveNoTokens | Programming_Assignment_2/CS3205_Assignment2_NS25Z022_NS25Z035_DA24E001/CS3205_Assignment2_NS25Z022_NS25Z035_DA24E001/ex1/syncserver.c:59-60 | a list of commas only has no tokens |
| IgnoreFilter.CommasOnlyIgnoreNothing | Programming_Assignment_2/CS3205_Assignment2_NS25Z022_NS25Z035_DA24E001/CS3205_Assignment2_NS25Z022_NS25Z035_DA24E001/ex1/syncserver.c:58-68 | a list of commas only ignores no name |
| IgnoreFilter.IsIgnored | Programming_Assignment_2/CS3205_Assignment2_NS25Z022_NS25Z035_DA24E001/CS3205_Assignment2_NS25Z022_NS25Z035_DA24E001/ex1/syncserver.c:58-68 | the `strtok` loop answers exactly whether the name is ignored |
| IgnoreFilter.Matches | Programming_Assignment_2/CS3205_Assignment2_NS25Z022_NS25Z035_DA24E001/CS3205_Assignment2_NS25Z022_NS25Z035_DA24E001/ex1/syncserver.c:59-66 | defines "some token occurs in the name" (`strstr` over the tokens); its one-token-at-a-time unfolding is `MatchesCons` |
| IgnoreFilter.Ignored | Programming_Assignment_2/CS3205_Assignment2_NS25Z022_NS25Z035_DA24E001/CS3205_Assignment2_NS25Z022_NS25Z035_DA24E001/ex1/syncserver.c:52-68 | defines `is_ignored` as a match against the tokens of the list; `IgnoredIff` proves it holds exactly when some non-empty comma field occurs in the name, and `CommasOnlyIgnoreNothing` that a list of commas ignores nothing |
| SyncServer.TrimSlashes | Programming_Assignment_2/CS3205_Assignment2_NS25Z022_NS25Z035_DA24E001/CS3205_Assignment2_NS25Z022_NS25Z035_DA24E001/ex1/syncserver.c:84 | `basename` drops trailing slashes: a prefix that does not end in '/' |
| SyncServer.Basename | Programming_Assignment_2/CS3205_Assignment2_NS25Z022_NS25Z035_DA24E001/CS3205_Assignment2_NS25Z022_NS25Z035_DA24E001/ex1/syncserver.c:77-84 | defines POSIX `basename`; `BasenameOfJoin` proves it gives back `name` for `dir/name` when `name` has no slash |
| SyncServer.PathOf | Programming_Assignment_2/CS3205_Assignment2_NS25Z022_NS25Z035_DA24E001/CS3205_Assignment2_NS25Z022_NS25Z035_DA24E001/ex1/syncserver.c:154 | defines the `"%s/%s"` path cut to MAX_PATH - 1 characters; `TransferOfJoinedPath` uses it for a path that fits |
| SyncServer.ComponentStart | Programming_Assignment_2/CS3205_Assignment2_NS25Z022_NS25Z035_DA24E001/CS3205_Assignment2_NS25Z022_NS25Z035_DA24E001/ex1/syncserver.c:84 | the last path component starts just after a '/' and holds none |
| SyncServer.ComponentStartOfJoin | Programming_Assignment_2/CS3205_Assignment2_NS25Z022_NS25Z035_DA24E001/CS3205_Assignment2_NS25Z022_NS25Z035_DA24E001/ex1/syncserver.c:84 | in `dir/name` the last component starts after the joining slash |
| SyncServer.BasenameOfJoin | Programming_Assignment_2/CS3205_Assignment2_NS25Z022_NS25Z035_DA24E001/CS3205_Assignment2_NS25Z022_NS25Z035_DA24E001/ex1/syncserver.c:84 | the basename of `dir/name` is `name` |
| SyncServer.CountActive | Programming_Assignment_2/CS3205_Assignment2_NS25Z022_NS25Z035_DA24E001/CS3205_Assignment2_NS25Z022_NS25Z035_DA24E001/ex1/syncserver.c:50-51 | the number of active slots is at most the table size |
| SyncServer.CountActiveUpdate | Programming_Assignment_2/CS3205_Assignment2_NS25Z022_NS25Z035_DA24E001/CS3205_Assignment2_NS25Z022_NS25Z035_DA24E001/ex1/syncserver.c:289-298 | replacing one slot changes the active count by that slot's change alone |
| SyncServer.AllActiveCount | Programming_Assignment_2/CS3205_Assignment2_NS25Z022_NS25Z035_DA24E001/CS3205_Assignment2_NS25Z022_NS25Z035_DA24E001/ex1/syncserver.c:283-298 | a table with every slot active has a full count |
| SyncServer.SomeSlotInactive | Programming_Assignment_2/CS3205_Assignment2_NS25Z022_NS25Z035_DA24E001/CS3205_Assignment2_NS25Z022_NS25Z035_DA24E001/ex1/syncserver.c:283-298 | below the full count some slot is inactive, so the accept loop finds one |
| SyncServer.NoneActiveCount | Programming_Assignment_2/CS3205_Assignment2_NS25Z022_NS25Z035_DA24E001/CS3205_Assignment2_NS25Z022_NS25Z035_DA24E001/ex1/syncserver.c:50-51 | a table with no active slot counts zero |
| SyncServer.Receives | Programming_Assignment_2/CS3205_Assignment2_NS25Z022_NS25Z035_DA24E001/CS3205_Assignment2_NS25Z022_NS25Z035_DA24E001/ex1/syncserver.c:102-103 | defines who a broadcast reaches as written: below `client_count`, active, not ignoring the name; `Server.Broadcast` is proved against it and `StrandedSlotMissesBroadcast` shows an active slot it misses |
| SyncServer.IntendedReceives | Programming_Assignment_2/CS3205_Assignment2_NS25Z022_NS25Z035_DA24E001/CS3205_Assignment2_NS25Z022_NS25Z035_DA24E001/ex1/syncserver.c:103 | defines who a broadcast is meant for: every active slot not ignoring the name; `Server.BroadcastToActive` is proved against it and `ScanAgreesWhenPacked` proves it equals `Receives` while no active slot lies at or beyond the count |
| SyncServer.FanOutReaches | Programming_Assignment_2/CS3205_Assignment2_NS25Z022_NS25Z035_DA24E001/CS3205_Assignment2_NS25Z022_NS25Z035_DA24E001/ex1/syncserver.c:161-162 | defines who the CREATE fan-out reaches as written: below `client_count` and active; `Server.FanOutFile` is proved against it and `StrandedSlotMissesFile` shows an active slot it misses |
| SyncServer.StrandedSlotMissesBroadcast | Programming_Assignment_2/CS3205_Assignment2_NS25Z022_NS25Z035_DA24E001/CS3205_Assignment2_NS25Z022_NS25Z035_DA24E001/ex1/syncserver.c:102 | with slot 0 freed and slot 1 active, `client_count` is 1 and the broadcast as written skips slot 1, which it evidently should reach |
| SyncServer.StrandedSlotMissesFile | Programming_Assignment_2/CS3205_Assignment2_NS25Z022_NS25Z035_DA24E001/CS3205_Assignment2_NS25Z022_NS25Z035_DA24E001/ex1/syncserver.c:161 | in the same table the file fan-out as written skips the active slot 1 |
| SyncServer.EventTrafficAgreesWhenPacked | Programming_Assignment_2/CS3205_Assignment2_NS25Z022_NS25Z035_DA24E001/CS3205_Assignment2_NS25Z022_NS25Z035_DA24E001/ex1/syncserver.c:150-181 | when no active slot lies at or beyond the count, the event handler as written sends every slot exactly the traffic of the corrected one |
| SyncServer.StrandedSlotMissesEvent | Programming_Assignment_2/CS3205_Assignment2_NS25Z022_NS25Z035_DA24E001/CS3205_Assignment2_NS25Z022_NS25Z035_DA24E001/ex1/syncserver.c:156-179 | in the stranded table the handler as written sends the active slot 1 nothing, though a notice it does not ignore was meant for it |
| SyncServer.ScanAgreesWhenPacked | Programming_Assignment_2/CS3205_Assignment2_NS25Z022_NS25Z035_DA24E001/CS3205_Assignment2_NS25Z022_NS25Z035_DA24E001/ex1/syncserver.c:102-103 | when no slot at or beyond the count is active, the scan as written and the intended one agree for every slot |
| SyncServer.TransferOfJoinedPath | Programming_Assignment_2/CS3205_Assignment2_NS25Z022_NS25Z035_DA24E001/CS3205_Assignment2_NS25Z022_NS25Z035_DA24E001/ex1/syncserver.c:71-97 | a file is sent as `FILE <name>` plus its bytes, unless the list ignores its path or it cannot be opened, in which case nothing is sent |
| SyncServer.Header | Programming_Assignment_2/CS3205_Assignment2_NS25Z022_NS25Z035_DA24E001/CS3205_Assignment2_NS25Z022_NS25Z035_DA24E001/ex1/syncserver.c:84-88 | defines the `"FILE <basename>\n"` header cut to MAX_PATH - 1 characters; `TransferOfJoinedPath` proves it is `"FILE " + name + "\n"` for `dir/name` |
| SyncServer.FileTransfer | Programming_Assignment_2/CS3205_Assignment2_NS25Z022_NS25Z035_DA24E001/CS3205_Assignment2_NS25Z022_NS25Z035_DA24E001/ex1/syncserver.c:71-97 | defines what `send_file_to_client` sends: nothing for an ignored or unopenable path, else the header and the whole file; `Server.SendFile` appends exactly this and `TransferOfJoinedPath` states it for a joined path |
| SyncServer.KindOf | Programming_Assignment_2/CS3205_Assignment2_NS25Z022_NS25Z035_DA24E001/CS3205_Assignment2_NS25Z022_NS25Z035_DA24E001/ex1/syncserver.c:156-179 | the event kind, by the chain's precedence: CREATE, then DELETE, then MOVED_FROM, then MOVED_TO |
| SyncServer.KindName | Programming_Assignment_2/CS3205_Assignment2_NS25Z022_NS25Z035_DA24E001/CS3205_Assignment2_NS25Z022_NS25Z035_DA24E001/ex1/syncserver.c:157-177 | defines the message word of each event kind; `EventSendsOneNotice` proves the notice is that word, a space and the name |
| SyncServer.Notice | Programming_Assignment_2/CS3205_Assignment2_NS25Z022_NS25Z035_DA24E001/CS3205_Assignment2_NS25Z022_NS25Z035_DA24E001/ex1/syncserver.c:151-178 | defines the notice of an event: none for an empty name area or an unmatched mask, else the kind word and the name cut to MAX_PATH - 1; `NamelessEventIsSilent` and `EventSendsOneNotice` carry its properties |
| SyncServer.EventTraffic | Programming_Assignment_2/CS3205_Assignment2_NS25Z022_NS25Z035_DA24E001/CS3205_Assignment2_NS25Z022_NS25Z035_DA24E001/ex1/syncserver.c:151-179 | defines what a slot is sent for one event with the corrected broadcast and fan-out; `Server.ProcessEvent` is proved against it, and `EventSendsOneNotice` and `CreateFansOutFile` state what it contains |
| SyncServer.EventTrafficAsWritten | Programming_Assignment_2/CS3205_Assignment2_NS25Z022_NS25Z035_DA24E001/CS3205_Assignment2_NS25Z022_NS25Z035_DA24E001/ex1/syncserver.c:151-179 | defines what slot `i` is sent for one event through the `client_count` scans as written; `Server.ProcessEventAsWritten` is proved against it, `EventTrafficAgreesWhenPacked` ties it to `EventTraffic`, and `StrandedSlotMissesEvent` shows where they differ |
| SyncServer.EventWatches | Programming_Assignment_2/CS3205_Assignment2_NS25Z022_NS25Z035_DA24E001/CS3205_Assignment2_NS25Z022_NS25Z035_DA24E001/ex1/syncserver.c:159-169 | defines the watches added for an event: the new directory's watches on a CREATE of a directory, else none; `NamelessEventIsSilent` and `CreateFansOutFile` state it is empty in those cases, and `Server.ProcessEvent` adds exactly it |
| SyncServer.AddWatches | Programming_Assignment_2/CS3205_Assignment2_NS25Z022_NS25Z035_DA24E001/CS3205_Assignment2_NS25Z022_NS25Z035_DA24E001/ex1/syncserver.c:111-128 | the watches added are the path itself, when it is a directory, and directories below it |
| SyncServer.BufferTrafficStep | Programming_Assignment_2/CS3205_Assignment2_NS25Z022_NS25Z035_DA24E001/CS3205_Assignment2_NS25Z022_NS25Z035_DA24E001/ex1/syncserver.c:148-182 | one event handled after the first n extends the buffer's traffic by that event's traffic |
| SyncServer.BufferTraffic | Programming_Assignment_2/CS3205_Assignment2_NS25Z022_NS25Z035_DA24E001/CS3205_Assignment2_NS25Z022_NS25Z035_DA24E001/ex1/syncserver.c:148-182 | defines a slot's traffic for a whole buffer as the concatenation of its per-event traffic in order; `Server.ProcessBuffer` is proved against it with `BufferTrafficStep` |
| SyncServer.BufferWatches | Programming_Assignment_2/CS3205_Assignment2_NS25Z022_NS25Z035_DA24E001/CS3205_Assignment2_NS25Z022_NS25Z035_DA24E001/ex1/syncserver.c:148-182 | defines the watches added for a whole buffer as the union of its per-event watches; `Server.ProcessBuffer` is proved against it |
| SyncServer.BufferSize | Programming_Assignment_2/CS3205_Assignment2_NS25Z022_NS25Z035_DA24E001/CS3205_Assignment2_NS25Z022_NS25Z035_DA24E001/ex1/syncserver.c:149-181 | defines the bytes a buffer's events occupy, EVENT_SIZE plus the name area each; `Server.ProcessBuffer` requires it to be the read length, so the walk `i += EVENT_SIZE + len` ends on it |
| SyncServer.NamelessEventIsSilent | Programming_Assignment_2/CS3205_Assignment2_NS25Z022_NS25Z035_DA24E001/CS3205_Assignment2_NS25Z022_NS25Z035_DA24E001/ex1/syncserver.c:151 | an event without a name sends nothing and adds no watch |
| SyncServer.EventSendsOneNotice | Programming_Assignment_2/CS3205_Assignment2_NS25Z022_NS25Z035_DA24E001/CS3205_Assignment2_NS25Z022_NS25Z035_DA24E001/ex1/syncserver.c:156-179 | a named event sends each receiving slot one notice `KIND name`, and nothing else unless it creates a file |
| SyncServer.CreateFansOutFile | Programming_Assignment_2/CS3205_Assignment2_NS25Z022_NS25Z035_DA24E001/CS3205_Assignment2_NS25Z022_NS25Z035_DA24E001/ex1/syncserver.c:156-169 | a created file's notice is followed by each active slot's filtered file transfer; a created directory sends only the notice and adds its watches |
| SyncServer.EntryTraffic | Programming_Assignment_2/CS3205_Assignment2_NS25Z022_NS25Z035_DA24E001/CS3205_Assignment2_NS25Z022_NS25Z035_DA24E001/ex1/syncserver.c:194-209 | defines what `send_initial_state` sends for one entry: nothing for `.` and `..`, else CREATE and, for a non-directory, the file transfer; `Server.SyncEntry` is proved against it, with `InitialSyncAnnouncesEveryEntry` and `IgnoredEntrySendsNoBytes` for its properties |
| SyncServer.Flatten | Programming_Assignment_2/CS3205_Assignment2_NS25Z022_NS25Z035_DA24E001/CS3205_Assignment2_NS25Z022_NS25Z035_DA24E001/ex1/syncserver.c:204-207 | defines the payloads of successive sends in order; `FlattenAppend` proves it distributes over concatenation |
| SyncServer.FlattenAppend | Programming_Assignment_2/CS3205_Assignment2_NS25Z022_NS25Z035_DA24E001/CS3205_Assignment2_NS25Z022_NS25Z035_DA24E001/ex1/syncserver.c:194-209 | the traffic of two runs of entries is the first run's followed by the second's |
| SyncServer.SyncParts | Programming_Assignment_2/CS3205_Assignment2_NS25Z022_NS25Z035_DA24E001/CS3205_Assignment2_NS25Z022_NS25Z035_DA24E001/ex1/syncserver.c:194-209 | one traffic part per listing entry, in order |
| SyncServer.SyncTraffic | Programming_Assignment_2/CS3205_Assignment2_NS25Z022_NS25Z035_DA24E001/CS3205_Assignment2_NS25Z022_NS25Z035_DA24E001/ex1/syncserver.c:189-211 | defines what `send_initial_state` sends for a whole listing; `Server.SyncListing` and `Server.InitialSync` are proved against it, and `SyncTrafficAppend`, `SyncTrafficPrefix` and `InitialSyncAnnouncesEveryEntry` state its properties |
| SyncServer.SyncTrafficAppend | Programming_Assignment_2/CS3205_Assignment2_NS25Z022_NS25Z035_DA24E001/CS3205_Assignment2_NS25Z022_NS25Z035_DA24E001/ex1/syncserver.c:194-209 | the initial sync of a concatenated listing is the two syncs in order |
| SyncServer.SyncTrafficSnoc | Programming_Assignment_2/CS3205_Assignment2_NS25Z022_NS25Z035_DA24E001/CS3205_Assignment2_NS25Z022_NS25Z035_DA24E001/ex1/syncserver.c:194-209 | one more entry appends that entry's traffic |
| SyncServer.SyncTrafficSingle | Programming_Assignment_2/CS3205_Assignment2_NS25Z022_NS25Z035_DA24E001/CS3205_Assignment2_NS25Z022_NS25Z035_DA24E001/ex1/syncserver.c:194-209 | a one-entry listing sends that entry's traffic |
| SyncServer.SyncTrafficPrefix | Programming_Assignment_2/CS3205_Assignment2_NS25Z022_NS25Z035_DA24E001/CS3205_Assignment2_NS25Z022_NS25Z035_DA24E001/ex1/syncserver.c:194-209 | the sync of the first j + 1 entries extends the sync of the first j |
| SyncServer.InitialSyncAnnouncesEveryEntry | Programming_Assignment_2/CS3205_Assignment2_NS25Z022_NS25Z035_DA24E001/CS3205_Assignment2_NS25Z022_NS25Z035_DA24E001/ex1/syncserver.c:195-204 | every entry other than "." and ".." is announced with a `CREATE` notice, ignored or not |
| SyncServer.IgnoredEntrySendsNoBytes | Programming_Assignment_2/CS3205_Assignment2_NS25Z022_NS25Z035_DA24E001/CS3205_Assignment2_NS25Z022_NS25Z035_DA24E001/ex1/syncserver.c:203-208 | a directory entry, or an ignored file, is announced and sends no bytes |
| SyncServer.Server.constructor | Programming_Assignment_2/CS3205_Assignment2_NS25Z022_NS25Z035_DA24E001/CS3205_Assignment2_NS25Z022_NS25Z035_DA24E001/ex1/syncserver.c:50-55 | the table starts with no active slot, a count of zero and no watches; the directory name is cut to the buffer |
| SyncServer.Server.WatchTree | Programming_Assignment_2/CS3205_Assignment2_NS25Z022_NS25Z035_DA24E001/CS3205_Assignment2_NS25Z022_NS25Z035_DA24E001/ex1/syncserver.c:139 | the watcher adds the watches of the whole tree and changes nothing else |
| SyncServer.Server.Register | Programming_Assignment_2/CS3205_Assignment2_NS25Z022_NS25Z035_DA24E001/CS3205_Assignment2_NS25Z022_NS25Z035_DA24E001/ex1/syncserver.c:282-298 | at the limit the connection is refused and nothing changes; below it the lowest inactive slot takes the socket and the count grows by one |
| SyncServer.Server.Rollback | Programming_Assignment_2/CS3205_Assignment2_NS25Z022_NS25Z035_DA24E001/CS3205_Assignment2_NS25Z022_NS25Z035_DA24E001/ex1/syncserver.c:302-309 | a failed thread start frees the slot and lowers the count |
| SyncServer.Server.Handshake | Programming_Assignment_2/CS3205_Assignment2_NS25Z022_NS25Z035_DA24E001/CS3205_Assignment2_NS25Z022_NS25Z035_DA24E001/ex1/syncserver.c:218-221 | a non-empty hello becomes the slot's ignore list, cut to 255 bytes and at its NUL; an empty one keeps the previous list |
| SyncServer.Server.Disconnect | Programming_Assignment_2/CS3205_Assignment2_NS25Z022_NS25Z035_DA24E001/CS3205_Assignment2_NS25Z022_NS25Z035_DA24E001/ex1/syncserver.c:232-236 | the slot's socket becomes -1, the slot inactive, the count one lower |
| SyncServer.Server.Broadcast | Programming_Assignment_2/CS3205_Assignment2_NS25Z022_NS25Z035_DA24E001/CS3205_Assignment2_NS25Z022_NS25Z035_DA24E001/ex1/syncserver.c:100-108 | `send_to_clients` as written: the message goes to every active slot below `client_count` that does not ignore the name |
| SyncServer.Server.BroadcastToActive | Programming_Assignment_2/CS3205_Assignment2_NS25Z022_NS25Z035_DA24E001/CS3205_Assignment2_NS25Z022_NS25Z035_DA24E001/ex1/syncserver.c:100-108 | corrected broadcast: the message goes to every active slot that does not ignore the name |
| SyncServer.Server.SendFile | Programming_Assignment_2/CS3205_Assignment2_NS25Z022_NS25Z035_DA24E001/CS3205_Assignment2_NS25Z022_NS25Z035_DA24E001/ex1/syncserver.c:71-97 | one slot's outbox gets the filtered file transfer; no other slot changes |
| SyncServer.Server.FanOutFile | Programming_Assignment_2/CS3205_Assignment2_NS25Z022_NS25Z035_DA24E001/CS3205_Assignment2_NS25Z022_NS25Z035_DA24E001/ex1/syncserver.c:159-166 | the fan-out as written: the slots below `client_count` that are active each get the transfer |
| SyncServer.Server.FanOutToActive | Programming_Assignment_2/CS3205_Assignment2_NS25Z022_NS25Z035_DA24E001/CS3205_Assignment2_NS25Z022_NS25Z035_DA24E001/ex1/syncserver.c:159-166 | corrected fan-out: every active slot gets the transfer |
| SyncServer.Server.ProcessEvent | Programming_Assignment_2/CS3205_Assignment2_NS25Z022_NS25Z035_DA24E001/CS3205_Assignment2_NS25Z022_NS25Z035_DA24E001/ex1/syncserver.c:150-181 | each slot's outbox grows by exactly that event's traffic; the watches grow by the event's watches |
| SyncServer.Server.ProcessEventAsWritten | Programming_Assignment_2/CS3205_Assignment2_NS25Z022_NS25Z035_DA24E001/CS3205_Assignment2_NS25Z022_NS25Z035_DA24E001/ex1/syncserver.c:150-181 | the event handler as written: each slot's outbox grows by the event's traffic through the `client_count` scans of lines 102 and 161; the watches grow by the event's watches |
| SyncServer.Server.ProcessBuffer | Programming_Assignment_2/CS3205_Assignment2_NS25Z022_NS25Z035_DA24E001/CS3205_Assignment2_NS25Z022_NS25Z035_DA24E001/ex1/syncserver.c:148-182 | walking a read buffer event by event sends each slot the buffer's traffic in order and adds the buffer's watches |
| SyncServer.Server.SyncEntry | Programming_Assignment_2/CS3205_Assignment2_NS25Z022_NS25Z035_DA24E001/CS3205_Assignment2_NS25Z022_NS25Z035_DA24E001/ex1/syncserver.c:195-208 | one listing entry sends the connecting slot that entry's traffic and no one else anything |
| SyncServer.Server.InitialSync | Programming_Assignment_2/CS3205_Assignment2_NS25Z022_NS25Z035_DA24E001/CS3205_Assignment2_NS25Z022_NS25Z035_DA24E001/ex1/syncserver.c:189-211 | a directory that cannot be opened sends nothing; otherwise the slot gets the whole listing's traffic |
| SyncServer.Server.SyncListing | Programming_Assignment_2/CS3205_Assignment2_NS25Z022_NS25Z035_DA24E001/CS3205_Assignment2_NS25Z022_NS25Z035_DA24E001/ex1/syncserver.c:193-210 | the readdir loop sends the slot the traffic of every entry, in listing order |
| SyncServer.StrandedSlotScenario | Programming_Assignment_2/CS3205_Assignment2_NS25Z022_NS25Z035_DA24E001/CS3205_Assignment2_NS25Z022_NS25Z035_DA24E001/ex1/syncserver.c:102 | two registrations, a disconnect and a broadcast as written leave the active slot 1 without the message |
| SyncClient.FgetsLength | Programming_Assignment_2/CS3205_Assignment2_NS25Z022_NS25Z035_DA24E001/CS3205_Assignment2_NS25Z022_NS25Z035_DA24E001/ex1/syncclient.c:47 | `fgets` takes fewer characters than the buffer, stopping after the first newline |
| SyncClient.Fgets | Programming_Assignment_2/CS3205_Assignment2_NS25Z022_NS25Z035_DA24E001/CS3205_Assignment2_NS25Z022_NS25Z035_DA24E001/ex1/syncclient.c:47 | defines the line `fgets` stores, at most the buffer size less one and through the first newline; `ReadsFirstLine`, `ReadsLineBeforeNewline`, `ReadsLineAtEnd`, `LongLineIsCapped` and `FgetsPrefix` state what it reads |
| SyncClient.ReadIgnoreList | Programming_Assignment_2/CS3205_Assignment2_NS25Z022_NS25Z035_DA24E001/CS3205_Assignment2_NS25Z022_NS25Z035_DA24E001/ex1/syncclient.c:40-56 | the ignore list is a prefix of the file, below 256 characters, without a newline; an empty file gives an empty list |
| SyncClient.ReadsFirstLine | Programming_Assignment_2/CS3205_Assignment2_NS25Z022_NS25Z035_DA24E001/CS3205_Assignment2_NS25Z022_NS25Z035_DA24E001/ex1/syncclient.c:47-53 | a short first line is read whole, with or without a newline after it |
| SyncClient.ReadsLineBeforeNewline | Programming_Assignment_2/CS3205_Assignment2_NS25Z022_NS25Z035_DA24E001/CS3205_Assignment2_NS25Z022_NS25Z035_DA24E001/ex1/syncclient.c:47-53 | a short first line followed by a newline is read without the newline |
| SyncClient.ReadsLineAtEnd | Programming_Assignment_2/CS3205_Assignment2_NS25Z022_NS25Z035_DA24E001/CS3205_Assignment2_NS25Z022_NS25Z035_DA24E001/ex1/syncclient.c:47-53 | a short file without a newline is read whole |
| SyncClient.LongLineIsCapped | Programming_Assignment_2/CS3205_Assignment2_NS25Z022_NS25Z035_DA24E001/CS3205_Assignment2_NS25Z022_NS25Z035_DA24E001/ex1/syncclient.c:47 | a first line of 255 characters or more is cut to 255 |
| SyncClient.FgetsPrefix | Programming_Assignment_2/CS3205_Assignment2_NS25Z022_NS25Z035_DA24E001/CS3205_Assignment2_NS25Z022_NS25Z035_DA24E001/ex1/syncclient.c:47 | `fgets` goes through a newline-free prefix shorter than the buffer and carries on after it |
| SyncClient.JoinPath | Programming_Assignment_2/CS3205_Assignment2_NS25Z022_NS25Z035_DA24E001/CS3205_Assignment2_NS25Z022_NS25Z035_DA24E001/ex1/syncclient.c:71-81 | the local path is the directory, a slash, and the name |
| SyncClient.LastSlash | Programming_Assignment_2/CS3205_Assignment2_NS25Z022_NS25Z035_DA24E001/CS3205_Assignment2_NS25Z022_NS25Z035_DA24E001/ex1/syncclient.c:84 | `strrchr` finds the last '/', or reports that there is none |
| SyncClient.DirPart | Programming_Assignment_2/CS3205_Assignment2_NS25Z022_NS25Z035_DA24E001/CS3205_Assignment2_NS25Z022_NS25Z035_DA24E001/ex1/syncclient.c:83-88 | defines the directory `receive_file` ensures: the path up to its last slash; `DirOfJoin` proves it is `local_dir` for `local_dir/name` when `name` has no slash |
| SyncClient.LastSlashAt | Programming_Assignment_2/CS3205_Assignment2_NS25Z022_NS25Z035_DA24E001/CS3205_Assignment2_NS25Z022_NS25Z035_DA24E001/ex1/syncclient.c:84 | a '/' with none after it is the one `strrchr` finds |
| SyncClient.LastSlashOfJoin | Programming_Assignment_2/CS3205_Assignment2_NS25Z022_NS25Z035_DA24E001/CS3205_Assignment2_NS25Z022_NS25Z035_DA24E001/ex1/syncclient.c:81-84 | in `dir/name`, with no slash in the name, the last slash is the joining one |
| SyncClient.DirOfJoin | Programming_Assignment_2/CS3205_Assignment2_NS25Z022_NS25Z035_DA24E001/CS3205_Assignment2_NS25Z022_NS25Z035_DA24E001/ex1/syncclient.c:83-87 | the directory made sure of before a write is the client's own directory |
| SyncClient.ScanWord | Programming_Assignment_2/CS3205_Assignment2_NS25Z022_NS25Z035_DA24E001/CS3205_Assignment2_NS25Z022_NS25Z035_DA24E001/ex1/syncclient.c:129 | a `%Ns` conversion reads between 1 and N non-space characters |
| SyncClient.ScanCommand | Programming_Assignment_2/CS3205_Assignment2_NS25Z022_NS25Z035_DA24E001/CS3205_Assignment2_NS25Z022_NS25Z035_DA24E001/ex1/syncclient.c:129 | a parsed message is a command of at most 15 non-space characters and a non-empty name without spaces |
| SyncClient.BlankDoesNotParse | Programming_Assignment_2/CS3205_Assignment2_NS25Z022_NS25Z035_DA24E001/CS3205_Assignment2_NS25Z022_NS25Z035_DA24E001/ex1/syncclient.c:129 | blank text does not parse |
| SyncClient.WordRunOf | Programming_Assignment_2/CS3205_Assignment2_NS25Z022_NS25Z035_DA24E001/CS3205_Assignment2_NS25Z022_NS25Z035_DA24E001/ex1/syncclient.c:129 | a word followed by a space or the end is read exactly |
| SyncClient.SpaceRunOf | Programming_Assignment_2/CS3205_Assignment2_NS25Z022_NS25Z035_DA24E001/CS3205_Assignment2_NS25Z022_NS25Z035_DA24E001/ex1/syncclient.c:129 | leading spaces are skipped exactly |
| SyncClient.ScanWordOf | Programming_Assignment_2/CS3205_Assignment2_NS25Z022_NS25Z035_DA24E001/CS3205_Assignment2_NS25Z022_NS25Z035_DA24E001/ex1/syncclient.c:129 | after leading space, a word that fits the width is read whole and the rest follows |
| SyncClient.ScanWordSplits | Programming_Assignment_2/CS3205_Assignment2_NS25Z022_NS25Z035_DA24E001/CS3205_Assignment2_NS25Z022_NS25Z035_DA24E001/ex1/syncclient.c:129 | a word wider than the width is cut at the width and its tail stays unread |
| SyncClient.Spaces | Programming_Assignment_2/CS3205_Assignment2_NS25Z022_NS25Z035_DA24E001/CS3205_Assignment2_NS25Z022_NS25Z035_DA24E001/ex1/syncclient.c:129 | defines an all-white-space gap, as `%s` skips; `ScanWordOf` and `ScanCommandOf` use it to state which texts parse to which words |
| SyncClient.ScanCommandOf | Programming_Assignment_2/CS3205_Assignment2_NS25Z022_NS25Z035_DA24E001/CS3205_Assignment2_NS25Z022_NS25Z035_DA24E001/ex1/syncclient.c:129 | `command name` with any spacing parses as those two tokens |
| SyncClient.LongCommandIsSplit | Programming_Assignment_2/CS3205_Assignment2_NS25Z022_NS25Z035_DA24E001/CS3205_Assignment2_NS25Z022_NS25Z035_DA24E001/ex1/syncclient.c:129 | a first token longer than 15 characters parses as its first 15 characters and its tail |
| SyncClient.EnsureDirectory | Programming_Assignment_2/CS3205_Assignment2_NS25Z022_NS25Z035_DA24E001/CS3205_Assignment2_NS25Z022_NS25Z035_DA24E001/ex1/syncclient.c:59-67 | an existing directory is left as it is; a created one is added and nothing else changes |
| SyncClient.ParentExists | Programming_Assignment_2/CS3205_Assignment2_NS25Z022_NS25Z035_DA24E001/CS3205_Assignment2_NS25Z022_NS25Z035_DA24E001/ex1/syncclient.c:61-62 | defines when `mkdir` can succeed, the parent being a directory; `SyncClient.EnsureDirectory`'s contract is stated over it |
| SyncClient.CanOpen | Programming_Assignment_2/CS3205_Assignment2_NS25Z022_NS25Z035_DA24E001/CS3205_Assignment2_NS25Z022_NS25Z035_DA24E001/ex1/syncclient.c:91-96 | defines when `open(..., O_CREAT | O_TRUNC)` succeeds; `FileTruncatesThenWrites` proves that for an openable target under an existing `local_dir` the result is a truncate followed by the chunk loop |
| SyncClient.Removable | Programming_Assignment_2/CS3205_Assignment2_NS25Z022_NS25Z035_DA24E001/CS3205_Assignment2_NS25Z022_NS25Z035_DA24E001/ex1/syncclient.c:143-161 | defines when `remove` succeeds: a file or an empty directory; `DeleteRemovesOnlyTarget` proves a DELETE or MOVED_FROM removes the target exactly when it is removable and keeps every other path |
| SyncClient.Written | Programming_Assignment_2/CS3205_Assignment2_NS25Z022_NS25Z035_DA24E001/CS3205_Assignment2_NS25Z022_NS25Z035_DA24E001/ex1/syncclient.c:101 | `write` writes everything when the disk has room, part when it has some, and fails when it is full |
| SyncClient.Transfer | Programming_Assignment_2/CS3205_Assignment2_NS25Z022_NS25Z035_DA24E001/CS3205_Assignment2_NS25Z022_NS25Z035_DA24E001/ex1/syncclient.c:98-107 | the receive loop only appends to the target file, touches no other path, prints nothing and never adds input |
| SyncClient.ReceiveFileSpec | Programming_Assignment_2/CS3205_Assignment2_NS25Z022_NS25Z035_DA24E001/CS3205_Assignment2_NS25Z022_NS25Z035_DA24E001/ex1/syncclient.c:70-111 | defines the whole of `receive_file`: exit 1 when `mkdir` fails, an open failure that changes nothing else, else truncate and run the chunk loop; `SyncClient.ReceiveFile` is proved against it and `FileTruncatesThenWrites` states its result |
| SyncClient.Concat | Programming_Assignment_2/CS3205_Assignment2_NS25Z022_NS25Z035_DA24E001/CS3205_Assignment2_NS25Z022_NS25Z035_DA24E001/ex1/syncclient.c:100-107 | defines the bytes of the arrivals in order; `ConcatPrefix`, `TransferStopsAfterShortChunk` and `TransferUntilClose` prove the file receives exactly these bytes |
| SyncClient.Accept | Programming_Assignment_2/CS3205_Assignment2_NS25Z022_NS25Z035_DA24E001/CS3205_Assignment2_NS25Z022_NS25Z035_DA24E001/ex1/syncclient.c:100-101 | a chunk that fits is appended to the file |
| SyncClient.TransferFullChunk | Programming_Assignment_2/CS3205_Assignment2_NS25Z022_NS25Z035_DA24E001/CS3205_Assignment2_NS25Z022_NS25Z035_DA24E001/ex1/syncclient.c:100-107 | after a full 4096-byte chunk the loop goes on |
| SyncClient.TransferShortChunk | Programming_Assignment_2/CS3205_Assignment2_NS25Z022_NS25Z035_DA24E001/CS3205_Assignment2_NS25Z022_NS25Z035_DA24E001/ex1/syncclient.c:106 | a chunk shorter than 4096 bytes is written and ends the file |
| SyncClient.TransferClosed | Programming_Assignment_2/CS3205_Assignment2_NS25Z022_NS25Z035_DA24E001/CS3205_Assignment2_NS25Z022_NS25Z035_DA24E001/ex1/syncclient.c:100 | a closed socket ends the file with nothing written |
| SyncClient.AcceptedRest | Programming_Assignment_2/CS3205_Assignment2_NS25Z022_NS25Z035_DA24E001/CS3205_Assignment2_NS25Z022_NS25Z035_DA24E001/ex1/syncclient.c:100 | after one chunk the rest of the input is what follows it |
| SyncClient.TransferStopsAfterShortChunk | Programming_Assignment_2/CS3205_Assignment2_NS25Z022_NS25Z035_DA24E001/CS3205_Assignment2_NS25Z022_NS25Z035_DA24E001/ex1/syncclient.c:100-107 | the file gets every full chunk and the first short one, and the input after them stays unread |
| SyncClient.TransferUntilClose | Programming_Assignment_2/CS3205_Assignment2_NS25Z022_NS25Z035_DA24E001/CS3205_Assignment2_NS25Z022_NS25Z035_DA24E001/ex1/syncclient.c:100-107 | full chunks up to a close are all written, and the rest stays unread |
| SyncClient.ShortWriteStops | Programming_Assignment_2/CS3205_Assignment2_NS25Z022_NS25Z035_DA24E001/CS3205_Assignment2_NS25Z022_NS25Z035_DA24E001/ex1/syncclient.c:101-103 | when the disk fills, only the part that fits is written and the loop stops |
| SyncClient.Handle | Programming_Assignment_2/CS3205_Assignment2_NS25Z022_NS25Z035_DA24E001/CS3205_Assignment2_NS25Z022_NS25Z035_DA24E001/ex1/syncclient.c:127-174 | handling a message never adds input |
| SyncClient.Step | Programming_Assignment_2/CS3205_Assignment2_NS25Z022_NS25Z035_DA24E001/CS3205_Assignment2_NS25Z022_NS25Z035_DA24E001/ex1/syncclient.c:116-124 | a closed socket exits with status 0 and keeps the tree; otherwise each step consumes input |
| SyncClient.Run | Programming_Assignment_2/CS3205_Assignment2_NS25Z022_NS25Z035_DA24E001/CS3205_Assignment2_NS25Z022_NS25Z035_DA24E001/ex1/syncclient.c:114-178 | the session always ends in an exit |
| SyncClient.MalformedChangesNothing | Programming_Assignment_2/CS3205_Assignment2_NS25Z022_NS25Z035_DA24E001/CS3205_Assignment2_NS25Z022_NS25Z035_DA24E001/ex1/syncclient.c:172-174 | an unparsable message only prints a warning |
| SyncClient.NotifyOnlyCommands | Programming_Assignment_2/CS3205_Assignment2_NS25Z022_NS25Z035_DA24E001/CS3205_Assignment2_NS25Z022_NS25Z035_DA24E001/ex1/syncclient.c:130-132 | `CREATE`, `MOVED_TO` and unknown commands print one line and change nothing else |
| SyncClient.DeleteRemovesOnlyTarget | Programming_Assignment_2/CS3205_Assignment2_NS25Z022_NS25Z035_DA24E001/CS3205_Assignment2_NS25Z022_NS25Z035_DA24E001/ex1/syncclient.c:133-163 | `DELETE` and `MOVED_FROM` remove the named path when it can be removed and leave every other path; a failed `DELETE` is reported |
| SyncClient.FileTruncatesThenWrites | Programming_Assignment_2/CS3205_Assignment2_NS25Z022_NS25Z035_DA24E001/CS3205_Assignment2_NS25Z022_NS25Z035_DA24E001/ex1/syncclient.c:70-111 | `FILE` truncates the local file, receives into it and prints that it wrote it |
| SyncClient.CloseEndsSession | Programming_Assignment_2/CS3205_Assignment2_NS25Z022_NS25Z035_DA24E001/CS3205_Assignment2_NS25Z022_NS25Z035_DA24E001/ex1/syncclient.c:117-122 | a closed socket prints the disconnect, exits with 0 and leaves the tree |
| SyncClient.ReceiveFile | Programming_Assignment_2/CS3205_Assignment2_NS25Z022_NS25Z035_DA24E001/CS3205_Assignment2_NS25Z022_NS25Z035_DA24E001/ex1/syncclient.c:70-111 | `receive_file` does what the file-receive specification says |
| SyncClient.HandleMessage | Programming_Assignment_2/CS3205_Assignment2_NS25Z022_NS25Z035_DA24E001/CS3205_Assignment2_NS25Z022_NS25Z035_DA24E001/ex1/syncclient.c:127-174 | the command dispatch does what the message specification says |
| SyncClient.Session | Programming_Assignment_2/CS3205_Assignment2_NS25Z022_NS25Z035_DA24E001/CS3205_Assignment2_NS25Z022_NS25Z035_DA24E001/ex1/syncclient.c:114-178 | the receive loop runs the session to its exit |
| PongWire.FieldsLength | Programming_Assignment_2/CS3205_Assignment2_NS25Z022_NS25Z035_DA24E001/CS3205_Assignment2_NS25Z022_NS25Z035_DA24E001/ex2/p_server.c:279-280 | C `int` fields take at most 12 characters each with their ',' |
| PongWire.Fields | Programming_Assignment_2/CS3205_Assignment2_NS25Z022_NS25Z035_DA24E001/CS3205_Assignment2_NS25Z022_NS25Z035_DA24E001/ex2/p_server.c:279 | defines the text of values each printed with `%d` and followed by a comma; `FieldsLength`, `ScanFieldsOf` and `FieldsHaveNoNul` state its properties |
| PongWire.Format | Programming_Assignment_2/CS3205_Assignment2_NS25Z022_NS25Z035_DA24E001/CS3205_Assignment2_NS25Z022_NS25Z035_DA24E001/ex2/p_server.c:279-280 | defines the `"%d,%d,%d,%d,%d\n"` text of a snapshot; `DecodeFormat` proves `sscanf` reads it back to the same five values |
| PongWire.Packet | Programming_Assignment_2/CS3205_Assignment2_NS25Z022_NS25Z035_DA24E001/CS3205_Assignment2_NS25Z022_NS25Z035_DA24E001/ex2/p_server.c:272-280 | defines what `snprintf` leaves in the 256-byte buffer; `PacketIsWhole` proves nothing is cut, `PacketHasNoNul` that it has no NUL, and `DecodePacket` that it decodes to the snapshot |
| PongWire.PacketIsWhole | Programming_Assignment_2/CS3205_Assignment2_NS25Z022_NS25Z035_DA24E001/CS3205_Assignment2_NS25Z022_NS25Z035_DA24E001/ex2/p_server.c:272-280 | with C `int` fields the packet fits the 256-byte buffer whole, at most 60 characters |
| PongWire.ScanField | Programming_Assignment_2/CS3205_Assignment2_NS25Z022_NS25Z035_DA24E001/CS3205_Assignment2_NS25Z022_NS25Z035_DA24E001/ex2/p_client.c:142 | a conversion and its ',' consume input |
| PongWire.ScanFields | Programming_Assignment_2/CS3205_Assignment2_NS25Z022_NS25Z035_DA24E001/CS3205_Assignment2_NS25Z022_NS25Z035_DA24E001/ex2/p_client.c:142 | n successful conversions read n values |
| PongWire.Decode | Programming_Assignment_2/CS3205_Assignment2_NS25Z022_NS25Z035_DA24E001/CS3205_Assignment2_NS25Z022_NS25Z035_DA24E001/ex2/p_client.c:142 | defines `sscanf(..., "%d,%d,%d,%d,%d") == 5` and its five values; `DecodeFormat` and `DecodePacket` prove it inverts `Format` and `Packet` |
| PongWire.ScanFieldOf | Programming_Assignment_2/CS3205_Assignment2_NS25Z022_NS25Z035_DA24E001/CS3205_Assignment2_NS25Z022_NS25Z035_DA24E001/ex2/p_client.c:142 | a printed value followed by ',' reads back, leaving the rest |
| PongWire.ScanFieldsCons | Programming_Assignment_2/CS3205_Assignment2_NS25Z022_NS25Z035_DA24E001/CS3205_Assignment2_NS25Z022_NS25Z035_DA24E001/ex2/p_client.c:142 | one more printed field in front reads one more value |
| PongWire.ScanFieldsOf | Programming_Assignment_2/CS3205_Assignment2_NS25Z022_NS25Z035_DA24E001/CS3205_Assignment2_NS25Z022_NS25Z035_DA24E001/ex2/p_client.c:142 | printed fields read back as the values, in order |
| PongWire.ScanFieldsStep | Programming_Assignment_2/CS3205_Assignment2_NS25Z022_NS25Z035_DA24E001/CS3205_Assignment2_NS25Z022_NS25Z035_DA24E001/ex2/p_client.c:142 | the induction step of that round trip |
| PongWire.ScanFieldsFront | Programming_Assignment_2/CS3205_Assignment2_NS25Z022_NS25Z035_DA24E001/CS3205_Assignment2_NS25Z022_NS25Z035_DA24E001/ex2/p_client.c:142 | extending the round trip by one field at the front |
| PongWire.DecodeFormat | Programming_Assignment_2/CS3205_Assignment2_NS25Z022_NS25Z035_DA24E001/CS3205_Assignment2_NS25Z022_NS25Z035_DA24E001/ex2/p_client.c:142 | parsing what the format wrote gives back the five values, whatever follows |
| PongWire.DecodePacket | Programming_Assignment_2/CS3205_Assignment2_NS25Z022_NS25Z035_DA24E001/CS3205_Assignment2_NS25Z022_NS25Z035_DA24E001/ex2/p_client.c:142 | the client recovers every packet the server sends |
| PongWire.FieldsHaveNoNul | Programming_Assignment_2/CS3205_Assignment2_NS25Z022_NS25Z035_DA24E001/CS3205_Assignment2_NS25Z022_NS25Z035_DA24E001/ex2/p_server.c:279-280 | printed fields hold no NUL |
| PongWire.PacketHasNoNul | Programming_Assignment_2/CS3205_Assignment2_NS25Z022_NS25Z035_DA24E001/CS3205_Assignment2_NS25Z022_NS25Z035_DA24E001/ex2/p_server.c:279-280 | a packet holds no NUL and ends in a newline |
| PongControls.Steer | Programming_Assignment_2/CS3205_Assignment2_NS25Z022_NS25Z035_DA24E001/CS3205_Assignment2_NS25Z022_NS25Z035_DA24E001/ex2/p_server.c:179-183 | the left key moves one cell left unless at the left limit, the right key one right unless at the right limit, other keys do nothing; the paddle stays in range |
| PongControls.Final | Programming_Assignment_2/CS3205_Assignment2_NS25Z022_NS25Z035_DA24E001/CS3205_Assignment2_NS25Z022_NS25Z035_DA24E001/ex2/p_client.c:166-186 | defines where the paddle stands after the keys up to the first 'q'; `FinalInRange`, `FinalStep`, `FinalFrom` and `FinalAtQuit` state its properties |
| PongControls.Trace | Programming_Assignment_2/CS3205_Assignment2_NS25Z022_NS25Z035_DA24E001/CS3205_Assignment2_NS25Z022_NS25Z035_DA24E001/ex2/p_client.c:166-188 | one position per key when there is no 'q', none from the first 'q' on, the first one a single steer, each in range from a start in range |
| PongControls.FinalInRange | Programming_Assignment_2/CS3205_Assignment2_NS25Z022_NS25Z035_DA24E001/CS3205_Assignment2_NS25Z022_NS25Z035_DA24E001/ex2/p_server.c:179-183 | no key sequence moves a paddle out of its range |
| PongControls.TraceStopsAtQuit | Programming_Assignment_2/CS3205_Assignment2_NS25Z022_NS25Z035_DA24E001/CS3205_Assignment2_NS25Z022_NS25Z035_DA24E001/ex2/p_client.c:175-179 | keys after the first 'q' have no effect |
| PongControls.OtherKeysKeepPlace | Programming_Assignment_2/CS3205_Assignment2_NS25Z022_NS25Z035_DA24E001/CS3205_Assignment2_NS25Z022_NS25Z035_DA24E001/ex2/p_client.c:170-184 | keys other than the steering keys and 'q' never move the paddle |
| PongControls.FinalStep | Programming_Assignment_2/CS3205_Assignment2_NS25Z022_NS25Z035_DA24E001/CS3205_Assignment2_NS25Z022_NS25Z035_DA24E001/ex2/p_client.c:166-185 | one key moves the paddle once and the rest go on from there |
| PongControls.FinalFrom | Programming_Assignment_2/CS3205_Assignment2_NS25Z022_NS25Z035_DA24E001/CS3205_Assignment2_NS25Z022_NS25Z035_DA24E001/ex2/p_server.c:176-193 | the same step, i keys into a sequence |
| PongControls.FinalAtQuit | Programming_Assignment_2/CS3205_Assignment2_NS25Z022_NS25Z035_DA24E001/CS3205_Assignment2_NS25Z022_NS25Z035_DA24E001/ex2/p_server.c:184-187 | at 'q' the paddle stays where it is |
| PongServer.Initial | Programming_Assignment_2/CS3205_Assignment2_NS25Z022_NS25Z035_DA24E001/CS3205_Assignment2_NS25Z022_NS25Z035_DA24E001/ex2/p_server.c:76-79 | the ball starts at the centre moving down and right; the paddles start at 35 and 45; the bottom penalty starts at 0 |
| PongServer.Moved | Programming_Assignment_2/CS3205_Assignment2_NS25Z022_NS25Z035_DA24E001/CS3205_Assignment2_NS25Z022_NS25Z035_DA24E001/ex2/p_server.c:224-230 | defines the ball moved by its direction with `dx` flipped at the side walls; `StepMovesBall`, `BottomBounce` and `TopBounce` state its effect within a step |
| PongServer.HitsBottom | Programming_Assignment_2/CS3205_Assignment2_NS25Z022_NS25Z035_DA24E001/CS3205_Assignment2_NS25Z022_NS25Z035_DA24E001/ex2/p_server.c:233-235 | defines the bottom paddle's cover, one cell of slack each side; `BottomBounce` and `BottomMiss` state what a step does when it holds and when it does not |
| PongServer.HitsTop | Programming_Assignment_2/CS3205_Assignment2_NS25Z022_NS25Z035_DA24E001/CS3205_Assignment2_NS25Z022_NS25Z035_DA24E001/ex2/p_server.c:237-239 | defines the top paddle's cover, the width of the bottom paddle and no slack; `TopBounce` and `TopMiss` state what a step does when it holds and when it does not |
| PongServer.Step | Programming_Assignment_2/CS3205_Assignment2_NS25Z022_NS25Z035_DA24E001/CS3205_Assignment2_NS25Z022_NS25Z035_DA24E001/ex2/p_server.c:223-251 | defines one iteration of `move_ball`; `StepInPlay`, `StepMovesBall`, `BottomBounce`, `TopBounce`, `BottomMiss`, `TopMiss` and `StepScores` state its properties |
| PongServer.Steps | Programming_Assignment_2/CS3205_Assignment2_NS25Z022_NS25Z035_DA24E001/CS3205_Assignment2_NS25Z022_NS25Z035_DA24E001/ex2/p_server.c:218-255 | defines `n` iterations of `move_ball`; `StepsInPlay` and `StepsScore` state its properties and `Game.Play` is proved against it |
| PongServer.InPlay | Programming_Assignment_2/CS3205_Assignment2_NS25Z022_NS25Z035_DA24E001/CS3205_Assignment2_NS25Z022_NS25Z035_DA24E001/ex2/p_server.c:224-251 | defines the invariant of the ball in play; `InitialInPlay`, `StepInPlay` and `StepsInPlay` prove the game keeps it |
| PongServer.InitialInPlay | Programming_Assignment_2/CS3205_Assignment2_NS25Z022_NS25Z035_DA24E001/CS3205_Assignment2_NS25Z022_NS25Z035_DA24E001/ex2/p_server.c:76-77 | the initial and the served ball lie on the board |
| PongServer.StepInPlay | Programming_Assignment_2/CS3205_Assignment2_NS25Z022_NS25Z035_DA24E001/CS3205_Assignment2_NS25Z022_NS25Z035_DA24E001/ex2/p_server.c:224-251 | one ball step keeps the ball on the board |
| PongServer.StepsInPlay | Programming_Assignment_2/CS3205_Assignment2_NS25Z022_NS25Z035_DA24E001/CS3205_Assignment2_NS25Z022_NS25Z035_DA24E001/ex2/p_server.c:218-255 | any number of steps keeps the ball on the board |
| PongServer.StepMovesBall | Programming_Assignment_2/CS3205_Assignment2_NS25Z022_NS25Z035_DA24E001/CS3205_Assignment2_NS25Z022_NS25Z035_DA24E001/ex2/p_server.c:224-230 | the ball moves by its velocity, and reverses horizontally exactly at the side walls, unless it is served again |
| PongServer.BottomBounce | Programming_Assignment_2/CS3205_Assignment2_NS25Z022_NS25Z035_DA24E001/CS3205_Assignment2_NS25Z022_NS25Z035_DA24E001/ex2/p_server.c:233-236 | a ball under the bottom paddle bounces up |
| PongServer.TopBounce | Programming_Assignment_2/CS3205_Assignment2_NS25Z022_NS25Z035_DA24E001/CS3205_Assignment2_NS25Z022_NS25Z035_DA24E001/ex2/p_server.c:237-240 | a ball at the top paddle bounces down |
| PongServer.BottomMiss | Programming_Assignment_2/CS3205_Assignment2_NS25Z022_NS25Z035_DA24E001/CS3205_Assignment2_NS25Z022_NS25Z035_DA24E001/ex2/p_server.c:241-243 | a ball past the bottom row is served again and the bottom penalty grows |
| PongServer.TopMiss | Programming_Assignment_2/CS3205_Assignment2_NS25Z022_NS25Z035_DA24E001/CS3205_Assignment2_NS25Z022_NS25Z035_DA24E001/ex2/p_server.c:246-248 | a ball past the top row is served again and the top penalty grows |
| PongServer.StepScores | Programming_Assignment_2/CS3205_Assignment2_NS25Z022_NS25Z035_DA24E001/CS3205_Assignment2_NS25Z022_NS25Z035_DA24E001/ex2/p_server.c:241-251 | a step moves no paddle and scores at most one penalty, which serves the ball |
| PongServer.StepsScore | Programming_Assignment_2/CS3205_Assignment2_NS25Z022_NS25Z035_DA24E001/CS3205_Assignment2_NS25Z022_NS25Z035_DA24E001/ex2/p_server.c:218-255 | over n steps the penalties only grow, by at most n together |
| PongServer.Receive | Programming_Assignment_2/CS3205_Assignment2_NS25Z022_NS25Z035_DA24E001/CS3205_Assignment2_NS25Z022_NS25Z035_DA24E001/ex2/p_server.c:304-328 | the paddle is its old position or one that was received; any exit has status 0, and input of positions only never exits |
| PongServer.ReceiveStops | Programming_Assignment_2/CS3205_Assignment2_NS25Z022_NS25Z035_DA24E001/CS3205_Assignment2_NS25Z022_NS25Z035_DA24E001/ex2/p_server.c:304-327 | a close or an error after some positions leaves the paddle at the last of them; a close exits with 0, an error stops without an exit, and later input is ignored |
| PongServer.Positions | Programming_Assignment_2/CS3205_Assignment2_NS25Z022_NS25Z035_DA24E001/CS3205_Assignment2_NS25Z022_NS25Z035_DA24E001/ex2/p_server.c:306 | input builder, not a property: the `recv` results when the client sends the given positions, one per value; `ReceivePositions` and `ReceiveStops` state what the server does with them |
| PongServer.ReceivePositions | Programming_Assignment_2/CS3205_Assignment2_NS25Z022_NS25Z035_DA24E001/CS3205_Assignment2_NS25Z022_NS25Z035_DA24E001/ex2/p_server.c:304-313 | with no close, the paddle ends at the last position sent |
| PongServer.Game.constructor | Programming_Assignment_2/CS3205_Assignment2_NS25Z022_NS25Z035_DA24E001/CS3205_Assignment2_NS25Z022_NS25Z035_DA24E001/ex2/p_server.c:76-79 | the game starts in the initial world |
| PongServer.Game.ResetBall | Programming_Assignment_2/CS3205_Assignment2_NS25Z022_NS25Z035_DA24E001/CS3205_Assignment2_NS25Z022_NS25Z035_DA24E001/ex2/p_server.c:259-264 | the ball is served again and nothing else changes |
| PongServer.Game.MoveBall | Programming_Assignment_2/CS3205_Assignment2_NS25Z022_NS25Z035_DA24E001/CS3205_Assignment2_NS25Z022_NS25Z035_DA24E001/ex2/p_server.c:215-256 | one iteration of the ball thread is one physics step |
| PongServer.Game.Play | Programming_Assignment_2/CS3205_Assignment2_NS25Z022_NS25Z035_DA24E001/CS3205_Assignment2_NS25Z022_NS25Z035_DA24E001/ex2/p_server.c:218-255 | n iterations are n steps |
| PongServer.Game.PressKey | Programming_Assignment_2/CS3205_Assignment2_NS25Z022_NS25Z035_DA24E001/CS3205_Assignment2_NS25Z022_NS25Z035_DA24E001/ex2/p_server.c:179-183 | one key steers the top paddle and changes nothing else |
| PongServer.Game.MovePaddle | Programming_Assignment_2/CS3205_Assignment2_NS25Z022_NS25Z035_DA24E001/CS3205_Assignment2_NS25Z022_NS25Z035_DA24E001/ex2/p_server.c:176-193 | the top paddle ends where the keys up to 'q' take it; 'q' exits with 1 |
| PongServer.Game.ReceiveInput | Programming_Assignment_2/CS3205_Assignment2_NS25Z022_NS25Z035_DA24E001/CS3205_Assignment2_NS25Z022_NS25Z035_DA24E001/ex2/p_server.c:304-328 | the bottom paddle follows the received positions; a close exits with 0 |
| PongServer.Game.SendState | Programming_Assignment_2/CS3205_Assignment2_NS25Z022_NS25Z035_DA24E001/CS3205_Assignment2_NS25Z022_NS25Z035_DA24E001/ex2/p_server.c:276-285 | the bytes sent are the packet of the current state, and the client parses them back to it |
| PongClient.Messages | Programming_Assignment_2/CS3205_Assignment2_NS25Z022_NS25Z035_DA24E001/CS3205_Assignment2_NS25Z022_NS25Z035_DA24E001/ex2/p_client.c:128-139 | the recv texts are empty exactly when the server has closed; each holds no NUL and fits the buffer |
| PongClient.Apply | Programming_Assignment_2/CS3205_Assignment2_NS25Z022_NS25Z035_DA24E001/CS3205_Assignment2_NS25Z022_NS25Z035_DA24E001/ex2/p_client.c:142-152 | a parsed packet replaces the view; a malformed one keeps it |
| PongClient.Shown | Programming_Assignment_2/CS3205_Assignment2_NS25Z022_NS25Z035_DA24E001/CS3205_Assignment2_NS25Z022_NS25Z035_DA24E001/ex2/p_client.c:128-156 | the view shown is the start view or a packet that was parsed |
| PongClient.Report | Programming_Assignment_2/CS3205_Assignment2_NS25Z022_NS25Z035_DA24E001/CS3205_Assignment2_NS25Z022_NS25Z035_DA24E001/ex2/p_client.c:153-155 | a message gives at most one warning, itself |
| PongClient.Malformed | Programming_Assignment_2/CS3205_Assignment2_NS25Z022_NS25Z035_DA24E001/CS3205_Assignment2_NS25Z022_NS25Z035_DA24E001/ex2/p_client.c:153-155 | no more warnings than messages |
| PongClient.ReportedAreMalformed | Programming_Assignment_2/CS3205_Assignment2_NS25Z022_NS25Z035_DA24E001/CS3205_Assignment2_NS25Z022_NS25Z035_DA24E001/ex2/p_client.c:153-155 | every warning is a message that does not parse |
| PongClient.ParsedSnoc | Programming_Assignment_2/CS3205_Assignment2_NS25Z022_NS25Z035_DA24E001/CS3205_Assignment2_NS25Z022_NS25Z035_DA24E001/ex2/p_client.c:128-156 | one more message updates the view and the warnings by that message alone |
| PongClient.MessagesStep | Programming_Assignment_2/CS3205_Assignment2_NS25Z022_NS25Z035_DA24E001/CS3205_Assignment2_NS25Z022_NS25Z035_DA24E001/ex2/p_client.c:129-139 | each recv yields one C string and the loop goes on with the rest |
| PongClient.MalformedKeepView | Programming_Assignment_2/CS3205_Assignment2_NS25Z022_NS25Z035_DA24E001/CS3205_Assignment2_NS25Z022_NS25Z035_DA24E001/ex2/p_client.c:153-155 | malformed messages never change the view |
| PongClient.MalformedAllReported | Programming_Assignment_2/CS3205_Assignment2_NS25Z022_NS25Z035_DA24E001/CS3205_Assignment2_NS25Z022_NS25Z035_DA24E001/ex2/p_client.c:153-155 | every malformed message is reported, in order |
| PongClient.Stream | Programming_Assignment_2/CS3205_Assignment2_NS25Z022_NS25Z035_DA24E001/CS3205_Assignment2_NS25Z022_NS25Z035_DA24E001/ex2/p_server.c:279-285 | input builder, not a property: the client's arrivals when the server sends the given snapshots, one packet each; `MessagesOfStream`, `ShownStream` and `ClientShowsServer` state what the client makes of them |
| PongClient.MessagesOfStream | Programming_Assignment_2/CS3205_Assignment2_NS25Z022_NS25Z035_DA24E001/CS3205_Assignment2_NS25Z022_NS25Z035_DA24E001/ex2/p_client.c:129-139 | when each packet arrives whole, the client's messages are the server's packets |
| PongClient.ShownStream | Programming_Assignment_2/CS3205_Assignment2_NS25Z022_NS25Z035_DA24E001/CS3205_Assignment2_NS25Z022_NS25Z035_DA24E001/ex2/p_client.c:142-152 | after a stream of packets the view is the last one sent |
| PongClient.WellFormedNotReported | Programming_Assignment_2/CS3205_Assignment2_NS25Z022_NS25Z035_DA24E001/CS3205_Assignment2_NS25Z022_NS25Z035_DA24E001/ex2/p_client.c:142-155 | well-formed messages give no warning |
| PongClient.NoPacketMalformed | Programming_Assignment_2/CS3205_Assignment2_NS25Z022_NS25Z035_DA24E001/CS3205_Assignment2_NS25Z022_NS25Z035_DA24E001/ex2/p_client.c:142-155 | no server packet is reported as malformed |
| PongClient.ClientShowsServer | Programming_Assignment_2/CS3205_Assignment2_NS25Z022_NS25Z035_DA24E001/CS3205_Assignment2_NS25Z022_NS25Z035_DA24E001/ex2/p_client.c:142 | the client ends up showing the last state the server sent, with no warning |
| PongClient.ClosedStreamChangesNothing | Programming_Assignment_2/CS3205_Assignment2_NS25Z022_NS25Z035_DA24E001/CS3205_Assignment2_NS25Z022_NS25Z035_DA24E001/ex2/p_client.c:129-136 | a closed socket yields no messages, keeps the view and gives no warning |
| PongClient.Client.constructor | Programming_Assignment_2/CS3205_Assignment2_NS25Z022_NS25Z035_DA24E001/CS3205_Assignment2_NS25Z022_NS25Z035_DA24E001/ex2/p_client.c:15-20 | the globals start zeroed with both paddles at 45 |
| PongClient.Client.SetView | Programming_Assignment_2/CS3205_Assignment2_NS25Z022_NS25Z035_DA24E001/CS3205_Assignment2_NS25Z022_NS25Z035_DA24E001/ex2/p_client.c:146-150 | a parsed packet is copied into the shown state and nothing else changes |
| PongClient.Client.Warn | Programming_Assignment_2/CS3205_Assignment2_NS25Z022_NS25Z035_DA24E001/CS3205_Assignment2_NS25Z022_NS25Z035_DA24E001/ex2/p_client.c:154 | a warning is printed and nothing else changes |
| PongClient.Client.Commit | Programming_Assignment_2/CS3205_Assignment2_NS25Z022_NS25Z035_DA24E001/CS3205_Assignment2_NS25Z022_NS25Z035_DA24E001/ex2/p_client.c:139-155 | one recv buffer updates the view when it parses and warns otherwise |
| PongClient.Client.ReceiveData | Programming_Assignment_2/CS3205_Assignment2_NS25Z022_NS25Z035_DA24E001/CS3205_Assignment2_NS25Z022_NS25Z035_DA24E001/ex2/p_client.c:124-159 | the receive thread shows the last parsed packet, warns for every malformed one and exits with 0 at the close |
| PongClient.Client.SendData | Programming_Assignment_2/CS3205_Assignment2_NS25Z022_NS25Z035_DA24E001/CS3205_Assignment2_NS25Z022_NS25Z035_DA24E001/ex2/p_client.c:164-190 | the client sends its paddle position after every key before 'q', and 'q' exits with 0 |
| PongClient.SentInRange | Programming_Assignment_2/CS3205_Assignment2_NS25Z022_NS25Z035_DA24E001/CS3205_Assignment2_NS25Z022_NS25Z035_DA24E001/ex2/p_client.c:170-174 | every position sent is in range |
| PongClient.ServerFollowsClient | Programming_Assignment_2/CS3205_Assignment2_NS25Z022_NS25Z035_DA24E001/CS3205_Assignment2_NS25Z022_NS25Z035_DA24E001/ex2/p_client.c:188 | the server's bottom paddle ends where the client's keys put it |

## Left out

- Threads and mutexes are left out. Each thread is a method, and one iteration runs to completion before another starts. Interleavings are not modelled.
- The stray `pthread_mutex_unlock` at Programming_Assignment_2/CS3205_Assignment2_NS25Z022_NS25Z035_DA24E001/CS3205_Assignment2_NS25Z022_NS25Z035_DA24E001/ex1/syncclient.c:176 is left out, for the same reason.
- ncurses drawing, `usleep` and the 'c' key's screen clear are left out. They do not touch the modelled state.
- `ex2/pingpong.c` is not part of this model. It is a separate demo program.
- Socket set-up is left out: `socket`, `bind`, `listen`, `accept`, `connect`, argument parsing and `atoi`. The peer address stored in a slot is left out too.
- inotify, `opendir`/`readdir`, `open`, `fstat` and `sendfile` are left out. Their results are parameters. `sendfile` sends the whole file in one call.
- SyncClient.EnsureDirectory: the client's local tree is a map keyed by path strings, and its paths are never resolved. `.`, `..` and repeated or trailing slashes are not interpreted, and two spellings of one file are two keys. The same holds for `SyncClient.ParentExists`, `SyncClient.CanOpen` and `SyncClient.Removable`, and so for `SyncClient.ReceiveFileSpec`, `SyncClient.DeleteRemovesOnlyTarget` and `SyncClient.FileTruncatesThenWrites`. For names with no `/` other than `.` and `..` the keys are exactly the files the client touches. A name like `..`, `./x` or `x/../y` can reach the client only as file bytes parsed as a message, and for such a name the model differs from the file system.
- SyncClient.DeleteRemovesOnlyTarget: "every other path is kept" is about path strings. `DELETE x/../y` removes `local_dir/y` on a real file system, and the model instead reports a failed delete.
- SyncClient.FileTruncatesThenWrites: for the name `..` the real `open` at line 91 fails because the path is a directory. The model writes a file under the key `local_dir/..`.
- SyncServer.Server.ProcessEvent: uses the corrected broadcast and fan-out, which reach every active slot. The code reaches only active slots below `client_count` (lines 102 and 161; see "## Findings"). `SyncServer.Server.ProcessEventAsWritten` models the code as written. `SyncServer.EventTrafficAgreesWhenPacked` proves that the two send the same traffic whenever no active slot lies at or beyond the count.
- SyncServer.Server.ProcessBuffer: walks the buffer with the corrected `ProcessEvent`, so each event's traffic is the corrected traffic. An as-written buffer walk is not modelled separately. Per event it would differ only as `ProcessEventAsWritten` does.
- SyncServer.EventSendsOneNotice: its receiving slots are every active slot that does not ignore the name, as corrected. The code as written also requires the slot to lie below `client_count`.
- SyncServer.CreateFansOutFile: the file goes to every active slot, as corrected. The code as written sends it only to active slots below `client_count`.
- SyncServer.Server.ProcessBuffer: the event buffer is given as decoded events with their `len`. The byte layout of `struct inotify_event` is not modelled.
- SyncServer.Server.constructor: requires `max_clients <= MAX_CLIENTS`. A larger argument makes the accept loop run past the table, which the model does not represent.
- The `handle_client` loop that drains and discards client data is left out. It changes no state.
- The `watch_directory` outer `read` loop and its error exit are left out. They are modelled as one `ProcessBuffer` call per read.
- `is_ignored` frees a pointer returned by `strtok` instead of its `strdup` copy. It also leaks the copy. Memory is not modelled.
- `close` is called on a socket already set to -1 after disconnect. This is not modelled.
- SyncServer.Server.Handshake: a client with an empty ignore-list file sends zero bytes. The server then blocks waiting for the hello. The model keeps the previous list instead.
- SyncClient.ScanCommand: the second token is read whole, whatever its length. In C the plain `%s` at `ex1/syncclient.c` line 129 writes into `char filename[MAX_PATH]` (line 128), so a token of 2048 or more characters overflows that array. The result is undefined behaviour, which the model does not represent.
- SyncClient.ReadIgnoreList: takes the file's content as a parameter. When `fopen` fails (`ex1/syncclient.c` lines 41-44) the client prints an error and ends with exit status 1 before connecting, and that path is not modelled.
- The client's debug print of every raw message is left out, as are the `perror` texts. The `malloc` failure paths are left out because allocation never fails in the model.
- The unclosed comment at the top of `ex1/syncclient.c` is disregarded. The code is modelled as a compiler that accepted it would read it.
- Decimal.ScanInt: it reads an unbounded integer. Out-of-range `%d` input is undefined behaviour in C and is not modelled.
- PongServer.Step: the penalty counters are unbounded. Wrap-around of `penalty++` past `INT_MAX` is not modelled.
- PongServer.Receive: every successful `recv` on the server is a whole position. A read of 1 to 3 bytes would mix old and new bytes of `new_paddle_x`, and that mixing is not modelled.
- PongServer.Game.constructor: `penalty_2` is never initialised in the source. The constructor takes its starting value as a parameter.
- The server's key loop tests 'q' after 'a' and 'd', and the model tests it first. This is equivalent because the keys differ.
- PongServer.Game.SendState: a failed `send` ends the sending thread. The model only returns the bytes.
- The pong client has no line framing: its `recv` boundaries are the socket's arrival boundaries, which are a parameter. A packet split across two arrivals is parsed arrival by arrival, as the code does.

## Findings

| source | as written | input that shows it | evidently intended | confidence | as-written member | corrected member |
|---|---|---|---|---|---|---|
| Programming_Assignment_2/CS3205_Assignment2_NS25Z022_NS25Z035_DA24E001/CS3205_Assignment2_NS25Z022_NS25Z035_DA24E001/ex1/syncserver.c:102 | `send_to_clients` scans slots `0 .. client_count - 1` | clients register in slots 0 and 1, then slot 0 disconnects: `client_count` is 1, slot 1 is active and gets no notice | every active slot that does not ignore the name gets the notice | not executed | SyncServer.StrandedSlotMissesBroadcast | SyncServer.Server.BroadcastToActive |
| Programming_Assignment_2/CS3205_Assignment2_NS25Z022_NS25Z035_DA24E001/CS3205_Assignment2_NS25Z022_NS25Z035_DA24E001/ex1/syncserver.c:161 | the file fan-out scans slots `0 .. client_count - 1` | the same table: the active slot 1 gets no file after a CREATE | every active slot gets the file, filtered by its ignore list | not executed | SyncServer.StrandedSlotMissesFile | SyncServer.Server.FanOutToActive |

The event handler (`SyncServer.Server.ProcessEvent`) uses the corrected broadcast and fan-out. `SyncServer.Server.ProcessEventAsWritten` is that handler as written. `SyncServer.StrandedSlotMissesEvent` shows that it sends the stranded slot nothing. `SyncServer.Server.Broadcast` and `SyncServer.Server.FanOutFile` are the code as written.
