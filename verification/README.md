# Chat room server and clients — Dafny model

This project models the core of a small Java chat room (RNP3).

The centre of it is the server's per-connection protocol (`ChatServer.Handler.run`). It is written as a sequential transition system over the state all handlers share:

- `users`: the ordered list of claimed names;
- `writers`: the ordered list of outbound writers, one per joined client;
- the admission semaphore: a counter of free permits.

Each read of a client line is one atomic step. So is the registry update and the set of lines written in reaction to it. A step returns the new handler state, the new shared state and the `(recipient, line)` pairs it writes. The `ChatServer` module puts many handlers together with the listener loop (acquire a permit, accept, start a handler). It proves what holds in every reachable state.

Three smaller client-side pieces are modelled with their own wire literals:

- the desktop client's login loop, nickname dialog and Enter-key encoding (`ChatClient`);
- its reader thread's decoding of server lines (`ClientIncoming`);
- the UDP client's parsing of a `USERS k1 v1 k2 v2 ...` reply into a map (`UserList`).

The client markers (`/NME`, `/NOK`, `/USR`, `/QIT`, `/MSG`) are not the server's (`/NAME`, `/ACPT`, `/USER`, `/USRS`, `/QUIT`). No property here relates the two sides.

Files:

- `prelude.dfy`: `Option`, and the Java `startsWith`, `substring` and `List.remove` semantics.
- `admission.dfy`: the permit pool.
- `protocol.dfy`: one handler step.
- `server.dfy`: the whole server and its invariant.
- `client.dfy`: the desktop client's login, nickname dialog and Enter-key encoding.
- `client_incoming.dfy`: the reader thread.
- `user_list.dfy`: the `USERS` reply parser, with Java's `split(" ")`.

## Behaviour as the code has it

Where the code departs from what a reader of its protocol would expect, the model follows the code:

- **Join notice.** It is written to the writers registered *before* the newcomer's writer is appended. So the newcomer does not receive its own join notice (`Protocol.NameFreeJoins`), although a design in which it does would be just as plausible.
- **Quit.** The exact line `/QUIT<name>` is acknowledged and announced, but the handler does not leave its loop (`Protocol.QuitStaysActive`). Only end-of-stream, a read failure or a line shorter than five characters end a session.
- **Time stamp.** A session's chat lines (src/server/ChatServer.java:233) and its disconnect notice (line 207) carry the HH:mm string fixed when it joined, not the time of sending (`Protocol.StampFixedAtJoin`). The chat line format is `/MSGE(t) name: "text"`. The `/ACPT` reply, the join notice, the `/QUIT` acknowledgement and the `/USRS` replies carry no stamp.
- **Cleanup removes whatever string is in `name`.** That string is not always a registered name. It can be a malformed negotiation line (`Protocol.MalformedLineEvicts`). It can also be a candidate that lost the uniqueness check, when the next read fails (`Protocol.LostCandidateEvicts`). Either way, cleanup can remove another session's name while that session stays active (`ChatServer.EvictionFromInit`). That name can then be claimed again, so two active sessions can share a name (`ChatServer.EvictedNameCanBeClaimedTwice`).
- **What still holds.** The invariant `ChatServer.Inv` is weaker than a one-to-one match between names and writers, but it does hold:
  - `users` has no duplicates;
  - `writers` holds exactly the active handlers, once each;
  - every listed name belongs to some active session;
  - free permits plus live handlers equal `maxThreads`.

## Model

| member | source | states |
|---|---|---|
| Prelude.Substring | src/server/ChatServer.java:263-265 | `substring(k)` fails exactly when k exceeds the length; otherwise the result is the suffix after the first k characters |
| Prelude.RemoveFirst | src/server/ChatServer.java:242-249 | `List.remove` leaves a list without the element unchanged; otherwise it removes exactly one copy of it (multiset difference) |
| Prelude.RemoveFirstMembership | src/server/ChatServer.java:242-249 | on a duplicate-free list, after removal y is present iff it was present and differs from the removed element |
| Prelude.RemoveFirstKeepsNoDuplicates | src/server/ChatServer.java:242-249 | removing from a duplicate-free list keeps it duplicate-free |
| Admission.NewPool | src/server/ChatServer.java:63 | the semaphore starts with `maxThreads` free permits |
| Admission.Acquire | src/server/ChatServer.java:90 | acquire blocks exactly when no permit is free, and otherwise takes exactly one |
| Admission.Release | src/server/ChatServer.java:254 | release returns exactly one permit |
| Admission.AcquireReleaseInverse | src/server/ChatServer.java:90-92 | acquire after release restores the pool; release after a successful acquire restores it too |
| Protocol.Cleanup | src/server/ChatServer.java:240-255 | the finally block writes nothing and releases one permit; it removes one copy of `name` (if non-null) from `users` and one copy of the handler's writer from `writers` |
| Protocol.CleanupKeepsOrder | src/server/ChatServer.java:242-249 | cleanup deletes the first occurrence of the name and of the writer and keeps the rest of each list in order |
| Protocol.Receive | src/server/ChatServer.java:141-256 | one handler step keeps the handler id; it frees a permit exactly when it ends the handler; an active handler stays active with nothing shared changed, or closes; every line goes to the handler itself or a registered writer |
| Protocol.NegotiationAbort | src/server/ChatServer.java:151-160 | end-of-stream or a line without `/USER` ends the handler and adds no name; end-of-stream removes nothing either |
| Protocol.NameTakenReprompts | src/server/ChatServer.java:161-170 | the candidate is the line minus its first five characters; a taken candidate gets another `/NAME` prompt and leaves the registry unchanged |
| Protocol.NameFreeJoins | src/server/ChatServer.java:164-187 | a free candidate is appended to `users` and the writer to `writers`; `/ACPT` goes to the newcomer; the join notice goes to exactly the previously registered writers, so not to the newcomer |
| Protocol.ReceiveKeepsUsersDistinct | src/server/ChatServer.java:164-169 | no step puts a duplicate into `users` |
| Protocol.Others | src/server/ChatServer.java:217-222 | the user listing contains exactly the users other than the requester; on a duplicate-free list containing the requester it is one shorter |
| Protocol.OthersPreservesOrder | src/server/ChatServer.java:217-222 | the listing keeps registry order: the listing of two concatenated lists is the two listings concatenated, and one entry is listed exactly when it is not the requester |
| Protocol.ListUsersRepliesToRequester | src/server/ChatServer.java:210-225 | `/USRS` is answered to the requester only: "you are alone" when one writer is registered, otherwise a header and the bracketed other users; nothing changes |
| Protocol.ChatLineReachesEveryWriter | src/server/ChatServer.java:228-235 | any other line of length at least 5 goes to every registered writer, sender included, in order, as `/MSGE(t) name: "text"` with the marker stripped |
| Protocol.ShortLineEndsSession | src/server/ChatServer.java:228-255 | a line shorter than five characters makes `substring` throw, so only cleanup runs |
| Protocol.QuitStaysActive | src/server/ChatServer.java:197-209 | `/QUIT<name>` sends `/QUIT` to the sender and the disconnect notice to every writer, but the handler stays active and registered |
| Protocol.StampFixedAtJoin | src/server/ChatServer.java:189-190 | an active session's output does not depend on the current clock: the stamp on its chat lines and disconnect notice is fixed at join |
| Protocol.ActiveCleanupUnregisters | src/server/ChatServer.java:240-255 | ending an active session removes exactly its name and its writer and frees one permit |
| Protocol.MalformedLineEvicts | src/server/ChatServer.java:242-245 | a malformed negotiation line equal to a listed name removes that name from `users` |
| Protocol.LostCandidateEvicts | src/server/ChatServer.java:151-170 | a read failure after a lost candidate removes the winner's name from `users` |
| Protocol.ReceiveClosedIsCleanup | src/server/ChatServer.java:154-161 | every ending step is the cleanup of the string then held in `name`: null after end-of-stream in negotiation, the raw line after a malformed one, and otherwise unchanged |
| Protocol.ReceiveActivatedIsJoin | src/server/ChatServer.java:164-187 | a handler becomes active only on a `/USER` line whose candidate was absent |
| Protocol.ReceiveQuietStep | src/server/ChatServer.java:197-237 | every other step leaves the shared state and the phase unchanged |
| ChatServer.Init | src/server/ChatServer.java:51-64 | the initial server satisfies the invariant, with no live handler and `maxThreads` permits |
| ChatServer.Admit | src/server/ChatServer.java:88-96 | the listener blocks exactly when no permit is free; otherwise it takes a permit and starts a negotiating handler, which sends `/NAME` |
| ChatServer.Deliver | src/server/ChatServer.java:141-256 | a step of one handler leaves every other handler unchanged |
| ChatServer.LiveBounded | src/server/ChatServer.java:88-96 | at most `maxThreads` handlers are live, and with that many live the next accept waits |
| ChatServer.AdmitPreservesInv | src/server/ChatServer.java:88-96 | admitting keeps the invariant and adds exactly one live handler |
| ChatServer.DeliverPreservesInv | src/server/ChatServer.java:141-256 | every handler step keeps the invariant: distinct users; writers are exactly the active handlers; every listed name is owned by an active session; permits plus live handlers equal `maxThreads` |
| ChatServer.AliceJoins | src/server/ChatServer.java:151-187 | on a fresh two-permit server, a `/USERalice` answer yields one active session "alice" and one permit left |
| ChatServer.NewcomerAdmitted | src/server/ChatServer.java:88-96 | a second connection beside "alice" is admitted as a negotiating handler and takes the last permit |
| ChatServer.EvictionFromInit | src/server/ChatServer.java:154-159 | a second client answering the prompt with the bare line "alice" removes "alice" from `users` while alice's session stays active and registered |
| ChatServer.EvictedNameCanBeClaimedTwice | src/server/ChatServer.java:164-169 | once a name is evicted, a newcomer can claim it again, giving two active sessions with the same name |
| ChatClient.NameDialog | src/client/ChatClient.java:216-221 | the dialog repeats while the answer is empty: the result is the first non-empty answer (preceded only by empty ones), a cancel (null answer) after empty ones, or still asking exactly when every answer was empty |
| ChatClient.GetName | src/client/ChatClient.java:216-221 | the do-while loop ends exactly as the dialog outcome says |
| ChatClient.Outcome | src/client/ChatClient.java:163-180 | the event that stops login decides how: `/NOK` logs in, a read failure is caught and login returns, end-of-stream or a cancelled dialog throws, an all-empty dialog keeps showing |
| ChatClient.RunLogin | src/client/ChatClient.java:158-181 | login reads events while each passes (a line other than `/NOK`, with a returned dialog if it was `/NME`); it is still waiting exactly when every event passed; otherwise it stopped at the first event that does not pass, with that event's outcome |
| ChatClient.RunLoginSends | src/client/ChatClient.java:165-167 | the lines sent are exactly one `/USR` plus nickname per `/NME` whose dialog returned, in order |
| ChatClient.RunLoginNick | src/client/ChatClient.java:166 | the nickname login ends with is the last one the dialog returned, or the starting one if none was |
| ChatClient.OtherLoginLineIgnored | src/client/ChatClient.java:162-174 | a line other than `/NME` or `/NOK` changes nothing and the loop reads on |
| ChatClient.AcceptEndsLogin | src/client/ChatClient.java:168-169 | `/NOK` logs in at once and nothing after it is read |
| ChatClient.LoginSendsNonEmptyNicknames | src/client/ChatClient.java:165-167 | since the dialog never returns an empty nickname, no login line is the bare `/USR` |
| ChatClient.UpperEqualsIffIgnoreCase | src/client/ChatClient.java:100-103 | comparing the upper-cased text with an upper-case word is a case-insensitive comparison |
| ChatClient.OnEnter | src/client/ChatClient.java:99-109 | `users` in any case sends `/USR`, `quit` in any case sends `/QIT<user>`, anything else sends `/MSG<text>`; the field is always cleared |
| ChatClient.CloseMatchesTypedQuit | src/client/ChatClient.java:74-86 | closing the window sends the same line as typing quit |
| ChatClient.EnterRoundTrip | src/client/ChatClient.java:99-109 | the one line sent per Enter decodes back to the command, the quitting user or the exact text typed |
| ClientIncoming.IncomingMsg | src/client/ClientThreadIncoming.java:48-56 | the message area only grows; at most one of area and logout changes; logout happens exactly on `/QUIT` |
| ClientIncoming.BranchesDisjoint | src/client/ClientThreadIncoming.java:49-55 | no line both starts with `/MSGE` and equals `/QUIT` |
| ClientIncoming.IncomingMsgCases | src/client/ClientThreadIncoming.java:48-65 | `/MSGE` lines append the text after the marker plus a newline; `/QUIT` logs out; other lines have no effect |
| ClientIncoming.Run | src/client/ClientThreadIncoming.java:30-41 | the loop stops right after the first `/QUIT` line and reads every line when there is none; the area is the old area followed by the `/MSGE` payloads of the lines read; the alert count grows by the null lines read |
| ClientIncoming.EndOfStreamOnlyAlerts | src/client/ClientThreadIncoming.java:32-40 | a null line is not decoded: it only raises the alert and the loop reads on |
| ClientIncoming.ConsumeAppendsChunk | src/client/ClientThreadIncoming.java:35-40 | a null line only raises the alert; a non-`/QUIT` line appends its chunk and keeps the session |
| ClientIncoming.RunAppendsTranscript | src/client/ClientThreadIncoming.java:32-41 | without a logout line, the area ends up as the old area followed by every `/MSGE` payload in arrival order |
| UserList.Fields | src/praktikum/UserListThread.java:41 | splitting on single spaces gives at least one field and no field contains a space |
| UserList.JoinFieldsInvertsFields | src/praktikum/UserListThread.java:41 | joining the fields with single spaces gives back the payload |
| UserList.DropTrailingEmpty | src/praktikum/UserListThread.java:41 | Java's split keeps a prefix of the fields; only empty fields are dropped, and the last one kept is non-empty |
| UserList.JavaSplit | src/praktikum/UserListThread.java:41 | a payload without a space is one token; otherwise the tokens are the space-separated fields with exactly the trailing empty ones dropped |
| UserList.PutPairsSnoc | src/praktikum/UserListThread.java:42-43 | one more complete pair is one more `put` |
| UserList.PutPairsIgnoresTrailingToken | src/praktikum/UserListThread.java:42 | a trailing unpaired token is ignored |
| UserList.PutPairsKeepsUntouched | src/praktikum/UserListThread.java:43 | a key named by no complete pair keeps its old entry or stays absent |
| UserList.PutPairsLastWins | src/praktikum/UserListThread.java:43 | a pair's key maps to that pair's value when no later pair names it |
| UserList.PutPairsAccumulates | src/praktikum/UserListThread.java:21-43 | the thread's map is never cleared: earlier keys survive every update |
| UserList.PutAll | src/praktikum/UserListThread.java:42-44 | the `i += 2` loop puts every complete token pair, in order |
| UserList.Poll | src/praktikum/UserListThread.java:30-50 | a failed read or a reply of exactly `USERS` throws; non-`USERS` replies and payloads of length 0 or 1 change nothing; exactly the other `USERS` replies update: the thread's map gets the pairs and the client's map becomes equal to it |

## Left out

- Swing and logging: the server log window, `writeServerLog` and its `session` list, dialogs, frame titles and `getServerAddress` are presentation only.
- Network I/O: sockets, streams, `accept` and its failures, and closing the listener are left out. A read is one of line, end-of-stream or read failure. `PrintWriter` swallows write errors, so writes never fail in the model.
- Stream set-up failure: when `getInputStream` throws (src/server/ChatServer.java:144-145), `out` stays null and cleanup skips `writers`. That path is not modelled; every handler has a writer id.
- Thread interleaving: each handler step is atomic. So the unsynchronized join broadcast (src/server/ChatServer.java:179-181), the unsynchronized removals in `finally` (243-248) and the two lock objects (`users` vs `writers`) are outside the model.
- Semaphore blocking and fairness: acquire on an empty pool has no successor. The `InterruptedException` branch of the listener (94-96) is not modelled.
- Time: `Calendar`/`SimpleDateFormat` are replaced by an opaque HH:mm string given at join.
- Case: `toUpperCase` is ASCII-only.
- Text length: strings are sequences of characters, and `substring(5)` drops five of them. Java counts UTF-16 code units, so a line with characters outside the Basic Multilingual Plane is cut differently. For example, three such characters make a Java line of length 6, which the server broadcasts but the model treats as too short and ends the session (`Protocol.ShortLineEndsSession`). Text is modelled as BMP-only.
- ChatClient.RunLogin: the `user` field while a dialog is still open or was cancelled is not tracked (Java assigns each answer to it, and null on cancel). `user` is the last nickname the dialog returned. The frame title and the text field enabling at `/NOK` are presentation.
- UDP client context: `ChatClient_praktikum`, `ClientThreadIn` and `ChatThreadOut` are network I/O around the modelled parser. `UserListThread` sending the `USERS` request, its two-second sleep and its interruption loop are left out too.
- Client session control: connecting, `logout`'s dialog and stream closing, and the frame disposal in the reader's error branch are left out. The error branch is counted as an alert.
- End-to-end compatibility: the client and server marker literals differ, so no cross-component property is stated.
