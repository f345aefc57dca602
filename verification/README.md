# Rivendell: verified models

Dafny models of the parts of Rivendell, a self-hosted chat with voice calls, whose correctness is
hard to see by reading: the voice-call protocol, the WebSocket codec, the metadata stripper, the
composer's decorator and undo stack, the block renderer, the message pane and its paging, and
password hashing. Each model takes the branches, the constants and the error exits of the code it
cites. Code that updates state step by step is a class or a loop here too, proved against a
function; the theorems are about those functions and about all their runs. What such a function
computes is pinned down a second time from the outside: by the octets, the characters or the fields
that go in and come out, without the function's own parts.

`dafny verify dfyconfig.toml` checks the whole project.

| files | what they model |
|---|---|
| `VoiceState`, `Hub`, `Presence`, `VoiceConvergence`, `Announcing`, `Calls`, `Effects`, `Grace`, `Caps`, `Rings`, `Dispatch` | rosters, connections, calls, grace timers, caps and rings on the server; the receiver of roster broadcasts |
| `Frames`, `Messages` | the frame reader and writer, de-fragmentation, the read loop |
| `Parts`, `Orientation`, `Jpeg`, `Png`, `Webp`, `StripMetadata` | stripping metadata from uploaded images |
| `Html`, `Scan`, `Markup`, `CodeSpans`, `Rules`, `Passes`, `Decorate`, `OneToken`, `DecoratedText`, `Toggle`, `Undo` | decorating composer text in place; the wrap shortcut; undo and redo |
| `Tables`, `TableLaws`, `Blocks`, `BlockForms`, `BlockLaws`, `WrittenTables` | rendering a message block by block; forwarding |
| `Grouping`, `Drawing`, `Splicing`, `Pane`, `Listing`, `Paging` | grouping of rows, the incremental pane, history pages |
| `Pbkdf2`, `PasswordHash` | key derivation and the encoded hash |
| `Basics`, `Bytes` | shared definitions |

## How the models are built

**Voice.** The hub's mutations are atomic and stamp a rising sequence number. `VoiceConvergence`
interleaves freely inside handlers: a handler is between its mutations and its broadcasts for any
number of steps, and a broadcast is queued per receiver in a multiset and delivered in any order, or
lost, after which the claim is about the changes that follow. `Calls` and `Rings` take each handler,
each queued cleanup and each timer callback as one step; a `Stop` that came too late is a choice of
the environment. `Caps` takes the check of a cap and the entry as two steps, with anything in
between. `Dispatch.Server` is the handlers themselves, each proved to take exactly that step and to
send exactly the broadcasts its contract lists, and to store exactly what `Effects` says field by
field; `Announcing` proves that the broadcasts of a join, a
leave, a mute, an ended DM call and a cleanup are those of steps of the convergence model.

**Images.** Each container has a parser that knows nothing about stripping. The stripper's loop is
proved to return the printed filter of what the parser reads, and then that the parser, run on the
output, reads exactly that back. The `StripsOctets` lemmas then say it for whole files written out
octet by octet.

**Decorator.** A scanner says what a browser would show of decorated text, with the NUL references
standing for code spans; a NUL and digits are held back until it is clear whether they are one.
Every replacement pass is proved to keep what the scanner shows, and putting the spans back turns it
into what the page shows. That is fidelity; what a token turns into is a matter of its own:
`Passes` says where a token stands and which span it becomes, and `OneToken` and `DecoratedText` take
that through the escape, the other passes and the code blocks.

**Pane and paging.** A pane is the drawn rows, then the pending rows, then the bottom sentinel, as
an invariant of the class that every operation keeps. A loaded window is ascending and part of the
channel's history. While it is a block of the history, the two flags tell the truth about its ends;
every operation runs on windows with holes too, and its contract says what becomes of them.

**Assumptions.** DMs are private and have the members they were created with
(internal/store/store_channels.go:134-137); store lookups succeed; sequence numbers do not
wrap, and message ids stay below 2^62 - 1; characters are Unicode scalars, not UTF-16 units;
HMAC-SHA-256 is any function with 32-octet results. Where Go walks a map, the order is arbitrary.

## What turned out not to hold

Each of these is proved with the condition under which the code does meet the property, or with the
step that breaks it.

- A message can be drawn twice. The comment at web/static/app.js:2343-2345 calls the broadcast of
  one's own message an idempotent backstop; with two pending sends of equal text, the broadcast of
  the first takes over the second's row (`Pane.TwinSendsDrawTwice`, exactly when in
  `Pane.MessagePane.MessageNew`).
- A window over old messages gets a hole from a live message, or from an edit of a message that is
  not loaded, exactly as `Paging.ExtendedBlock` and `Paging.EditedBlock` say. No page mends it, and
  when the hole is in front of the newest message the next forward page declares the window complete
  (`Paging.HoleIsKept`). One's own message makes such a hole too, since the response to the POST is
  folded into the window; the reload at its broadcast mends it, unless a forward page came in between
  (`Paging.SendFromHistory`).
- A member who joins another channel leaves the other side of a DM call alone in it, although the
  comment at internal/httpapi/ws_dispatch.go:101-103 says nobody is (`Calls.DMCallEndsForAll`).
- Coming back within the grace period does not always save a DM call. With its user online all along,
  a callback may still end the call if and only if one was left behind by the re-announce or a cleanup
  of the dropped connection is still queued, since nothing in the cleanup looks whether the user is
  back (`Grace.ComingBackExactly`). One is left behind exactly when the Stop of the re-announce is too
  late or an earlier one orphaned a callback (`Grace.RejoinSavesCall`); over a run, callbacks are
  orphaned exactly when some Stop of that timer is too late (`Grace.OrphansComeFromLateStops`).
  `Grace.LateStopLosesCall` and `Grace.QueuedCleanupLosesCall` are runs in which the call is lost, the
  second without any late Stop.
- The same queued cleanup takes a connected user who was announced again out of a group call or out of
  a DM call in which nobody else is (`Grace.QueuedCleanupRuns`); in a group nothing but that can, as
  long as the user stays put (`Grace.GroupPlaceExactly`).
- The caps on people and cameras can be exceeded, since other handlers run between check and entry. A
  join or a camera keeps to its cap exactly when the check would still pass at its entry
  (`Caps.EntryWithinCap`, `Caps.CameraWithinCap`), and the excess is at most one less than the number
  of users between check and entry at the same time (`Caps.InterleavedCaps`), a bound that is reached
  (`Caps.InterleavedJoinsOverrunCap`).
- The frame reader checks neither that each continuation continues something, as section 5.4 of
  RFC 6455 asks, nor that pings and pongs are in one piece and of at most 125 octets, as sections 5.4
  and 5.5 ask. These are the only ways in which frames it accepts fail to be one message in the sense
  of `Messages.FragmentedMessage` (`Messages.WellFormedExactly`). A lone continuation, a second text
  frame in mid-message and a message with a fragmented or oversized ping are returned
  (`Messages.OrphanContinuationIsReturned`, `Messages.SecondStartIsReturned`,
  `Messages.BadPingIsAnswered`, and for all streams `Messages.AcceptedRead`); the pong that answers an
  oversized ping is itself oversized.
- The backward walk and the rendering loop disagree on grouping exactly behind an invisible deleted
  system row (`Grouping.AnchorsAgree`).
- The comment at web/static/app.js:2112-2114 says that the unread divider breaks a run of grouped
  rows; the code does not reset there, and the model follows the code: what the loop has accumulated
  does not depend on the divider (`Grouping.LoopAccumulates`).
- Drawing one new row is not always what a rebuild would draw; `Pane.InsertedIsRebuilt` says exactly
  when it is. A row in front of a deletion somebody saw lands behind its tombstone
  (`Pane.BehindTombstone`).
- Decorated text does not always read back as the text: it does exactly when markup is off or no line
  outside the code blocks has, outside its code spans, a NUL, digits and then a NUL or a code span
  (`Decorate.DecorateIsFaithful`); such a line is shown wrong at the NUL (`Decorate.ForgedReference`
  is the shortest family).
- An undo can change nothing visible: over a run, exactly when some append inside the window typed
  the previous step's value back (`UndoStack.EveryUndoShows`, `UndoStack.RecordLeavesEqual`;
  `UndoStack.RetypingLeavesEqualEntries` is such a run).
- Cells written as a table row with their pipes escaped do not always read back: they do if and only if
  no cell with a pipe behind it ends in a backslash (`TableLaws.CellsReadBack`).
- Pressing a wrap shortcut twice does not always undo it: text and selection come back if and only if the
  first press wraps a selection that is not empty, or unwraps one that the second press wraps again
  (`Toggle.PressedTwice`).
- A key of more than 2^32 - 1 blocks is not refused, as section 5.2 of RFC 8018 asks
  (`Pbkdf2.IndexIsFaithful`).

## Model

| member | source | states |
|---|---|---|
| VoiceConvergence.Converges | internal/ws/hub.go:35-43 | At the end of any interleaving of mutations, sends and deliveries in any order, once no handler is mid-flight and nothing of its channel is queued for it, a receiver that applies only newer stamps shows exactly the hub's roster, under the stamp of that channel's last change, if the channel changed at all since the receiver started afresh or last lost a frame |
| VoiceConvergence.RunKeepsInv | internal/ws/hub.go:35-43 | Over every run: each frame in flight is a true snapshot of the roster at its stamp or older than the last change, and whatever a receiver lacks is still to be sent to it |
| VoiceConvergence.BeginJoinKeepsInv | internal/httpapi/ws_dispatch.go:300-311 | The first half of a join, one stamp over every roster the user leaves, owes each of those channels its own broadcast |
| VoiceConvergence.EndJoinKeepsInv | internal/httpapi/ws_dispatch.go:312-314 | The second half of a join, however much happened in between, still leaves every receiver able to converge |
| VoiceConvergence.DeliverKeepsInv | web/static/voice.js:1870-1883 | Delivering any queued frame to the receiver's rule, stale or new, never leaves it with a roster that no later frame would correct |
| VoiceConvergence.OnlyNewerApplies | web/static/voice.js:1870-1883 | A frame of the receiver's channel with a strictly newer stamp is taken whole, any other is dropped |
| VoiceConvergence.JoinAnnounces | internal/httpapi/ws_dispatch.go:312-314 | A join always announces its channel to the receivers already watching it, so convergence applies to them |
| Hubs.Hub.Add | internal/ws/hub.go:112-124 | Adds one connection; reports a first connection and an effective idle change exactly when there is one |
| Hubs.Hub.Remove | internal/ws/hub.go:126-141 | Removes one connection; reports a last connection exactly when the user is then offline, and an idle change exactly on any other removal that flipped it |
| Hubs.Hub.SetClientIdle | internal/ws/hub.go:200-206 | Marks one connection and reports exactly whether the user's effective idle state flipped |
| Hubs.Hub.UserIdle | internal/ws/hub.go:217-228 | True exactly when the user has connections and all are idle |
| Presence.ReportsMatchConnections | internal/ws/hub.go:112-141 | Over every run of connects, disconnects and idle marks, the balance of first and last reports is 1 when the user is connected and 0 when not, and the reported idle changes add up to the effective idle state |
| Presence.ConnectionAfter | internal/ws/hub.go:112-206 | What one event does to every single connection and its idle mark |
| Presence.ConnectionIsSaid | internal/ws/hub.go:112-206 | After any run a connection is there exactly when the last event about it that was no mark made it, and it is idle exactly when the last event about it says so |
| Hubs.Hub.VoiceJoin | internal/ws/hub.go:290-308 | The new hub state in full; a user who was not listed gets a fresh entry, unmuted, with video off and not sharing, one who was keeps the old; the returned list is a join-ordered snapshot of the new roster, the stamp the one just taken |
| Hubs.Hub.VoiceLeave | internal/ws/hub.go:312-323 | As for a join, with the user gone and the roster gone with its last user |
| Hubs.Hub.VoiceSetMute | internal/ws/hub.go:327-339 | A listed user's entry takes the three flags as given and keeps id and join time, every other entry and roster stays; the list is a snapshot of the new roster under the stamp just taken |
| Hubs.Hub.VoiceClear | internal/ws/hub.go:345-356 | Empties one channel and returns each of its former users once |
| Hubs.Hub.VoiceCounts | internal/ws/hub.go:370-383 | The two counts are the sizes of the roster and of its cameras-on part, without the excluded user |
| Hubs.Hub.VoiceLeaveAll | internal/ws/hub.go:389-407 | Takes the user out of every roster under one stamp and returns a snapshot of exactly the rosters the user was in |
| Hubs.Hub.VoiceChannelsForUser | internal/ws/hub.go:415-425 | Exactly the channels whose roster lists the user, each with a snapshot of its roster |
| Hubs.Hub.VoiceList | internal/ws/hub.go:450-459 | A list of exactly the roster's entries, each once, sorted by join time |
| Calls.CallInvariants | internal/httpapi/ws_dispatch.go:279-375 | After any run of handlers, cleanups and callbacks: nobody is in two rosters, none is empty, groups keep both positive caps, a DM call holds only the DM's members and a private group's call only members and admins, sharing implies video on |
| Calls.NextKeepsInv | internal/httpapi/ws_dispatch.go:279-375 | Every step keeps those invariants and that each listed user is connected, has a cleanup queued, or is in a DM with an armed grace timer |
| Calls.CleanupKeepsInv | internal/httpapi/ws_dispatch.go:44-59 | A cleanup, in whatever order it visits the user's channels, removes the user or arms a timer in each of them |
| Calls.DrainedMeansConnected | internal/httpapi/ws_dispatch.go:44-98 | After any run, once no cleanup is queued and no callback is left, everyone listed is connected |
| Calls.DrainEnds | internal/httpapi/ws_dispatch.go:44-98 | From any reachable state the queued cleanups and callbacks can be run to the end, and then no disconnected user is in any roster |
| Calls.DMCallEndsForAll | internal/httpapi/ws_dispatch.go:100-137 | In every step a DM call of two keeps both or ends for both, except that a member who is admitted to another channel leaves the other alone |
| Effects.JoinStores | internal/httpapi/ws_dispatch.go:279-317 | What a join leaves in every roster, entry by entry: let in exactly when the channel is open to the user and has room, then a fresh entry, unmuted, video off, not sharing, and the user in no other roster |
| Effects.LeaveStores | internal/httpapi/ws_dispatch.go:319-337 | What a leave leaves in every roster: a DM call is over for everyone, a group loses the leaver and nobody else |
| Effects.MuteStores | internal/httpapi/ws_dispatch.go:349-375 | What a mute leaves in every roster: the flags as asked, but video off when the cameras of others have reached a group's cap, and no share without video; id, join time and every other entry as they were |
| Effects.FlagsAreSaid | internal/ws/hub.go:290-339 | After every run, a listed user's entry is that of the last join that was let in, with the flags of the last mute for the channel since, and without one unmuted, video off and not sharing |
| Grace.RejoinSavesCall | internal/httpapi/ws_dispatch.go:90-98 | Right after an admitted re-announce a callback for that user and channel is left if and only if one was orphaned before, or this Stop is late on the one in the table; a punctual one leaves none |
| Grace.LateCallbackEndsCall | internal/httpapi/ws_dispatch.go:74-84 | Any callback left behind by the re-announce, whichever Stop missed it, clears the call the user is back in |
| Grace.NextOrphans | internal/httpapi/ws_dispatch.go:67-98 | Exactly how each step changes whether a callback of a key runs outside the table: a late Stop of that timer orphans it, its own callback running leaves the others, and nothing else matters |
| Grace.OrphansComeFromLateStops | internal/httpapi/ws_dispatch.go:67-98 | Over every run, no callback of a key is ever orphaned if and only if no join and no cleanup in the run stopped that timer too late |
| Grace.PunctualRunSavesCall | internal/httpapi/ws_dispatch.go:60-98 | In a run in which no Stop for a user and channel was late, no punctual re-announce leaves a callback behind |
| Grace.ComingBackExactly | internal/httpapi/ws_dispatch.go:44-98 | After a re-announce to a DM that has another member, some continuation with the user online throughout runs a callback of that user and channel, and some ends the call with the user in it, if and only if a callback was left behind or a cleanup of the user is still queued |
| Grace.PunctualReannounceSaves | internal/httpapi/ws_dispatch.go:44-98 | After a run without a late Stop for a user and channel, a punctual re-announce saves the call in every continuation with the user online if and only if no cleanup of the user is queued |
| Grace.StaysSafe | internal/httpapi/ws_dispatch.go:44-98 | While no callback of a key is left and no cleanup of its user queued, no step that leaves the user online brings either about |
| Grace.QueuedCleanupRuns | internal/httpapi/ws_dispatch.go:44-59 | A cleanup queued for a user who is listed arms a callback in a DM call of two or more and takes the user out of any other, connected or not |
| Grace.GroupPlaceExactly | internal/httpapi/ws_dispatch.go:44-59 | A user online in a group call, who neither joins nor leaves anything, can be taken out of it if and only if a cleanup of the user is queued |
| Grace.QueuedCleanupLosesCall | internal/httpapi/realtime.go:81-97 | A run from the start without any late Stop, in which both members are connected and in the call, no callback is left, and the cleanup of the replaced connection ends it |
| Grace.LateStopLosesCall | internal/httpapi/ws_dispatch.go:44-98 | A run from the start in which both members are connected and in the call, and a late callback ends it |
| Caps.EntryWithinCap | internal/httpapi/ws_dispatch.go:290-312 | A join that enters at any later state keeps to the cap if and only if its check would pass at that state |
| Caps.CameraWithinCap | internal/httpapi/ws_dispatch.go:357-373 | The same for a camera switched on |
| Caps.OverrunBySinceJoined | internal/httpapi/ws_dispatch.go:290-312 | A join that passed its check ends over the cap by at most the number of others who joined the channel since, whatever else happened |
| Caps.OverrunBySinceFilmed | internal/httpapi/ws_dispatch.go:357-373 | The same for a camera and the others switched on since |
| Caps.InterleavedCaps | internal/httpapi/ws_dispatch.go:290-373 | Over every interleaving of checks, entries, leaves, mutes and clears, a channel is over either cap by at most one less than the number of users between check and entry at once; with one at a time the caps hold |
| Caps.EntriesUseUpChecks | internal/httpapi/ws_dispatch.go:290-373 | Over every interleaving, the handlers of a user between check and entry are the checks that found room less the entries |
| Caps.InterleavedJoinsOverrunCap | internal/httpapi/ws_dispatch.go:290-312 | That bound is reached: any number of joins that all check one place below the cap are all admitted, and the channel ends over it by one less than their number |
| Rings.LateTimeoutIsHarmless | internal/httpapi/ws_dispatch.go:408-417 | In every reachable state a timeout callback removes its own ring if that is still pending, and otherwise changes nothing |
| Rings.RingStays | internal/httpapi/ws_dispatch.go:401-464 | A pending ring survives unchanged every event but its own timeout, a response in its DM or a new ring there |
| Rings.RingTimesOut | internal/httpapi/ws_dispatch.go:401-424 | Every pending ring has its timeout still to come, which removes it and tells both of the DM's members |
| Rings.PendingExactly | internal/httpapi/ws_dispatch.go:377-498 | After every run a DM's ring is pending, and is the one so started, if and only if some event rang and nothing has answered, replaced or timed out that ring since |
| Rings.OtherMemberIs | internal/httpapi/ws_dispatch.go:377-400 | Who is rung: in a DM of exactly two the other one, and nobody anywhere else |
| Dispatch.Server.Connected | internal/ws/hub.go:81-87 | A new connection is the connect step and touches no roster |
| Dispatch.Server.Disconnected | internal/ws/hub.go:101-110 | The end of a connection is the disconnect step: a cleanup is queued exactly when it was the user's last |
| Dispatch.Server.CancelDMTeardown | internal/httpapi/ws_dispatch.go:90-98 | Forgets the table entry, and the callback with it unless that had started |
| Dispatch.Server.ScheduleDMTeardown | internal/httpapi/ws_dispatch.go:67-73 | Arms a fresh callback under the key and stops the old one if it had not started |
| Dispatch.Server.GraceExpired | internal/httpapi/ws_dispatch.go:74-84 | Ends the call, tells everyone in it but the absent user and broadcasts an empty roster exactly when the user is still listed; otherwise sends nothing |
| Dispatch.Server.EndDMVoiceCall | internal/httpapi/ws_dispatch.go:113-137 | Clears the channel under one stamp, broadcasts it empty under that stamp, and sends voice.end to exactly its former users other than the leaver |
| Dispatch.Server.CleanupVoiceForUser | internal/httpapi/ws_dispatch.go:44-59 | Is the cleanup step for some order of exactly the user's channels; the broadcasts are one for each channel left, in that order, each under the stamp of its own change with its roster, and no other |
| Announcing.JoinIsSteps | internal/httpapi/ws_dispatch.go:300-314 | The broadcasts of an admitted join are those of a run of the convergence model: the first half, one send for each other channel, the second half, its own send; every receiver ends up with exactly these queued |
| Announcing.OneBroadcast | internal/httpapi/ws_dispatch.go:334-374 | The same for a leave, a mute and the end of a DM call |
| Announcing.LeavesAreSteps | internal/httpapi/ws_dispatch.go:44-59 | The same for a cleanup, as one leave after the other |
| Dispatch.Server.CleanupLeavesEach | internal/httpapi/ws_dispatch.go:44-59 | What a cleanup does to the rosters is one leave for each channel that gets a broadcast |
| Dispatch.Server.HandleJoin | internal/httpapi/ws_dispatch.go:279-317 | Is the join step and stores what `Effects.JoinStored` says; refused as full exactly at the cap; when admitted, broadcasts one true snapshot for each other channel left and then the joined one |
| Dispatch.Server.HandleLeave | internal/httpapi/ws_dispatch.go:319-337 | Is the leave step and stores what `Effects.LeaveStored` says, with one broadcast of the resulting roster; in a DM exactly the others in the call are told it ended |
| Dispatch.Server.HandleMute | internal/httpapi/ws_dispatch.go:349-375 | Is the mute step and stores what `Effects.MuteStored` says, flag by flag, with one broadcast of that roster; video is denied exactly at the camera cap |
| Dispatch.Server.HandleRing | internal/httpapi/ws_dispatch.go:377-424 | Is the ring step: at most one ring per DM, with its own callback; the other member is sent the ring, and nobody anything when the ring is refused |
| Dispatch.Server.HandleRingResponse | internal/httpapi/ws_dispatch.go:426-464 | Is the response step, accepted or declined; the other member is sent the answer and the responder the dismissal |
| Dispatch.Server.RingTimedOut | internal/httpapi/ws_dispatch.go:408-417 | Is the timeout step, with ring_timeout sent to both sides even when the callback ran late |
| Dispatch.Server.PendingRingFrames | internal/httpapi/ws_dispatch.go:475-498 | A fresh socket is replayed exactly the rings pending for its user, each once |
| Frames.ReadFrame | internal/ws/websocket.go:115-156 | Returns what the parser reads at the front of the stream, or its error, and leaves the rest unread; what it reads, octet by octet, is `Frames.ReadsOctets`, `Frames.RefusesLong` and `Frames.CutShort` |
| Frames.UnmaskInPlace | internal/ws/websocket.go:148-153 | The buffer ends up as the octet-wise exclusive or with the repeated key |
| Bytes.XorBit | internal/ws/websocket.go:150-153 | Bit by bit: set in the exclusive or exactly where the operands differ |
| Frames.ParseWire | internal/ws/websocket.go:115-156 | Any frame of at most 1 MiB, laid out in any of the three length forms, masked with any key or not, is read back exactly, whatever follows it |
| Frames.ParsedIsWire | internal/ws/websocket.go:115-156 | Conversely the reader accepts nothing but laid-out frames and consumes exactly their octets |
| Frames.ReadsOctets | internal/ws/websocket.go:115-156 | From the octets alone: FIN is the top bit, the opcode the low four, the length in one of three forms in network order; an unmasked payload is as sent, a masked one has each bit flipped that is set in key octet i mod 4; what follows is untouched |
| Frames.RefusesLong | internal/ws/websocket.go:137-139 | A length above 1 MiB is refused before key or payload are read |
| Frames.CutShort | internal/ws/websocket.go:115-153 | A frame cut off anywhere: EOF between two parts, unexpected EOF inside one |
| Frames.WriteFrame | internal/ws/websocket.go:158-183 | Appends exactly the encoded frame to what was written before |
| Frames.WritesOctets | internal/ws/websocket.go:158-183 | The octets written, with each octet of the length in its place |
| Frames.FrameRoundTrip | internal/ws/websocket.go:115-183 | The reader undoes the writer for every fin, four-bit opcode and payload up to 1 MiB, and stops right after the frame |
| Messages.Conn.ReadMessage | internal/ws/websocket.go:187-227 | Returns the message, error and pongs that the specification of the loop gives for the unread octets |
| Messages.Reassembles | internal/ws/websocket.go:187-227 | A well-formed fragmented message with pings and pongs interleaved anywhere comes back whole, each ping answered once with its payload, if and only if it is at most 1 MiB; otherwise it is refused as too large |
| Messages.MessageComesFromFrames | internal/ws/websocket.go:187-227 | Whatever message is returned, from any octets, is the payload of accepted frames at the front of the stream, nothing skipped, repeated or invented |
| Messages.AcceptedRead | internal/ws/websocket.go:187-227 | Conversely any accepted frames, well-formed or not, are returned as one message of the type of the last frame that has one, with their pongs, up to 1 MiB |
| Messages.WellFormedExactly | internal/ws/websocket.go:187-227 | Frames are a well-formed message if and only if the reader accepts them, the first data frame starts the message while every later one continues it, and every ping and pong has FIN and at most 125 octets |
| Messages.OrphanContinuationIsReturned | internal/ws/websocket.go:187-227 | A continuation that starts no message is returned as a message |
| Messages.SecondStartIsReturned | internal/ws/websocket.go:187-227 | A second text or binary frame in mid-message is taken for more of it and gives it its type |
| Messages.BadPingIsAnswered | internal/ws/websocket.go:201-206 | A ping that is fragmented or longer than 125 octets is answered with its payload and the message behind it returned; that pong is over 125 octets exactly when the ping was |
| Messages.ReadsByOpcode | internal/ws/websocket.go:187-227 | One frame by the number of its opcode, with the message limit as a number: which are answered, skipped, collected or refused |
| Messages.ReadsUnfinished | internal/ws/websocket.go:187-227 | The frames of an unfinished message leave behind exactly its text so far, its type and its pongs |
| Messages.ClosedByPeer | internal/ws/websocket.go:209-211 | A close frame in mid-message, whatever it carries: the read ends with the connection closed, nothing of the message is returned, the pings before it are answered, and it is answered by one empty close frame |
| Messages.UnknownIsRefused | internal/ws/websocket.go:217-218 | An opcode that is not assigned ends the read with that error and no answer to it |
| Messages.BadFrameEndsRead | internal/ws/websocket.go:197-200 | A frame that is too large or cut off ends the read with its error after the pongs for what came before |
| Messages.Conn.WriteControl | internal/ws/websocket.go:240-245 | Writes one final frame with the given opcode and payload |
| Messages.Conn.ReadPump | internal/ws/hub.go:251-268 | Delivers every non-empty message in order until the first error, with the pongs written on the way |
| Messages.PumpDelivers | internal/ws/hub.go:251-268 | Over a whole connection of accepted messages, well-formed or not, the handler gets exactly the non-empty ones in order and the peer exactly one pong per ping |
| Messages.PumpStops | internal/ws/hub.go:251-268 | Nothing empty is handed on, and the first read that fails ends the pump with its error |
| Parts.Concat | web/static/exif.js:228-235 | The filled buffer is the concatenation of the blocks |
| Orientation.ReadExifOrientation | web/static/exif.js:127-153 | Reads the orientation in either byte order; 0 when the directory is absent, truncated or has no such tag; which octets count is said by `Orientation.ReadsFirst`, `Orientation.ReadsNone` and `Orientation.ReadsOther` |
| Orientation.FindTagIsFirst | web/static/exif.js:146-151 | The value is that of the first orientation entry, wherever it stands |
| Orientation.ReadsFirst | web/static/exif.js:127-153 | From the octets alone, in either byte order, for any directory offset and any other entries: the value field of the first entry with tag 0x0112 is what is read |
| Orientation.ReadsNone | web/static/exif.js:127-153 | Without such an entry among those that fit, or with a directory beyond the end, 0 is read |
| Orientation.ReadsOther | web/static/exif.js:127-145 | So it is for whatever does not begin with Exif, two zeros and one of the two TIFF headers |
| Orientation.BuildReadsBack | web/static/exif.js:157-168 | The synthetic segment reads back as the orientation it was built from |
| Orientation.BuildIsMinimal | web/static/exif.js:157-168 | The synthetic segment, field by field: one directory right behind the header with one SHORT of count one, and its length |
| Jpeg.StripJpeg | web/static/exif.js:74-122 | Returns the printed filter of what the walker reads, and the very same array exactly when nothing is dropped; for a file written out octet by octet this is `Jpeg.StripsOctets` |
| Jpeg.WalkPrinted | web/static/exif.js:83-112 | The walker undoes the printer on any segments followed by any stopping point |
| Jpeg.WalkedIsWellFormed | web/static/exif.js:83-112 | On any bytes the walker's segments, tail and skipped fill bytes account for all of them |
| Jpeg.Reparse | web/static/exif.js:74-122 | The walker run on the output meets the kept segments of the input in order, at most the one synthetic segment among them, and the identical tail |
| Jpeg.StripPreserves | web/static/exif.js:74-122 | For every input, malformed ones included: the kept segments, the tail and the displayed orientation survive, and stripping twice is stripping once; which orientation that is, for files in either byte order, is said by `Jpeg.OrientationSurvives` |
| Jpeg.StripsOctets | web/static/exif.js:74-122 | A whole JPEG of segments, fill octets, standalone markers and a tail: left alone when every segment stays, otherwise exactly the segments that stay, the synthetic one behind JFIF or in front, and the same tail |
| Jpeg.OrientationSurvives | web/static/exif.js:74-122 | A photo whose last Exif segment holds an orientation above 1, in either byte order, at any directory offset and place: the stripped file has the minimal segment with that orientation |
| Jpeg.NoMetadataLeft | web/static/exif.js:74-122 | No dropped kind of segment is left before the scan but the synthetic one |
| Jpeg.DroppedForGood | web/static/exif.js:31-36 | No comment (0xFE) is left by a strip, and of the application segments only JFIF, ICC profiles and the synthetic one |
| Jpeg.StripAccounting | web/static/exif.js:74-122 | The output is shorter by exactly the dropped segments and the skipped bytes, and longer by the 36 octets of the new segment if there is one |
| Png.StripPng | web/static/exif.js:173-188 | Returns the signature and the kept chunks, or the same array when nothing is dropped |
| Png.ParsePrinted | web/static/exif.js:173-188 | The chunk parser undoes the printer on any list in which only the last chunk is IEND |
| Png.Reparse | web/static/exif.js:173-188 | The output's chunks are the kept chunks of the input, byte for byte and in order, and nothing follows them |
| Png.StripPreserves | web/static/exif.js:173-188 | For every input the kept chunks survive exactly, no dropped type is left, and stripping is idempotent |
| Png.StripsOctets | web/static/exif.js:173-188 | A whole PNG, octet by octet: left alone without a chunk of the five types, otherwise the signature and the other chunks as they were, and nothing behind them |
| Png.NoMetadataLeft | web/static/exif.js:173-188 | No tEXt, zTXt, iTXt, eXIf or tIME chunk is left by a strip, whatever the bytes |
| Png.TrailingBytes | web/static/exif.js:181-187 | Bytes after IEND or after a malformed chunk survive exactly when nothing is dropped |
| Webp.StripWebp | web/static/exif.js:197-226 | Returns the header with a corrected size and the kept chunks, or the same array when nothing is dropped |
| Webp.Reparse | web/static/exif.js:197-226 | The output's chunks are the kept chunks in order, untouched but for the VP8X flags; the RIFF size field is the length minus 8 |
| Webp.StripPreserves | web/static/exif.js:197-226 | No EXIF or XMP chunk is left, a VP8X chunk no longer announces one once something was dropped, and stripping is idempotent |
| Webp.StripsOctets | web/static/exif.js:197-226 | A whole WebP file, octet by octet: left alone without an EXIF or XMP chunk, otherwise the tags, the new size and the other chunks, each as it was but for the two flags |
| StripMetadata.StripMetadata | web/static/exif.js:41-46 | Dispatches on the signature; the same array comes back only unchanged |
| StripMetadata.PicksByMagic | web/static/exif.js:41-46 | Which stripper runs, by the first octets; none for anything else |
| StripMetadata.StripsJpeg | web/static/exif.js:41-122 | A JPEG written out, through the dispatcher |
| StripMetadata.StripsPng | web/static/exif.js:41-188 | A PNG written out, through the dispatcher |
| StripMetadata.StripsWebp | web/static/exif.js:41-226 | A WebP file written out, through the dispatcher |
| StripMetadata.Idempotent | web/static/exif.js:41-46 | On any bytes, stripping a second time changes nothing: no output is taken for another format |
| Html.EscapeHtmlIsEscape | web/static/format.js:28-36 | The five replacement passes in a row are one character-wise escape |
| Html.UnescapeUndoesEscape | web/static/format.js:28-36 | Un-escaping gives the text back |
| Markup.EmphasisKeeps | web/static/composer-richtext.js:31-47 | Wrapping a token in spans with dimmed markers changes nothing of what is shown, whatever it wraps |
| Rules.PassKeeps | web/static/composer-richtext.js:38-80 | Each of the eight passes, over all its matches, keeps what is shown |
| Passes.PassLeaves | web/static/composer-richtext.js:36-80 | Each of the eight passes leaves a text alone in which no token stands: marker, a body of the rule's class and length, closing marker, with the required boundary in front |
| Passes.PassWraps | web/static/composer-richtext.js:36-80 | The first token of a text becomes exactly its span (bold md-strong, either italic md-em, struck md-del, hidden md-spoiler, each with dimmed markers; a mention, channel or emoji tinted exactly when the name is known, with the class of its own for oneself), and the pass goes on behind it |
| Passes.PassWrapsOnly | web/static/composer-richtext.js:36-80 | The only token of a text becomes its span and nothing else changes |
| Decorate.Decorate | web/static/composer-richtext.js:124-147 | The two nested loops produce the specified entry for each line; what each line becomes is said by `OneToken.DecoratesToken`, `OneToken.DecoratesPlain`, `OneToken.DecoratesCode` and, over lines, by `DecoratedText` |
| OneToken.DecoratesToken | web/static/composer-richtext.js:88-98 | A line of one token amid plain text, through the escape, all passes and the code references: the token becomes the span of its rule around its escaped body, everything else is only escaped |
| OneToken.DecoratesPlain | web/static/composer-richtext.js:88-98 | A line in which no pass finds a token is only escaped |
| OneToken.DecoratesCode | web/static/composer-richtext.js:88-98 | A code span becomes the md-code span around its escaped text, whatever markers, names or references stand in it |
| DecoratedText.DecoratesFence | web/static/composer-richtext.js:110-147 | A fence line with a language, code lines none of which closes, and a closing line are code as they stand; what follows starts afresh |
| DecoratedText.DecoratesOpenFence | web/static/composer-richtext.js:110-147 | An unclosed block goes on to the end of the text |
| DecoratedText.DecoratesLine | web/static/composer-richtext.js:110-147 | Any other line is decorated by itself |
| DecoratedText.DecoratesText | web/static/composer-richtext.js:124-147 | The lines come out in order with a line break between two; without markup each is only escaped |
| DecoratedText.DecoratesOneToken | web/static/composer-richtext.js:124-147 | A whole text of one token amid plain text |
| CodeSpans.PullReads | web/static/composer-richtext.js:88-98 | Setting the code spans of any text aside shows the text itself unless a reference is forged; then it is right up to a NUL of the text and wrong there |
| CodeSpans.RestoreKeeps | web/static/composer-richtext.js:95-97 | Putting HTML back for each reference, genuine or forged, shows what the scanner that follows references says, after whatever the passes did in between |
| Decorate.LineDisplays | web/static/composer-richtext.js:88-98 | A decorated line shows exactly its escaped source, through code references, five emphasis and three annotation passes, if and only if it forges no reference |
| Decorate.LinesDisplay | web/static/composer-richtext.js:110-147 | One output entry per source line, fences and code included, each showing that line; a decorated one what its pulled text shows |
| Decorate.DecorateIsFaithful | web/static/composer-richtext.js:88-147 | For every text and context, dropping the tags, turning `<br>` into a newline and un-escaping gives the text back if and only if markup is off or no line outside a code block forges a reference; always for a text without a NUL |
| Decorate.ForgedReference | web/static/composer-richtext.js:95-97 | A line that is a NUL, digits and a NUL is shown as the word undefined |
| UndoStack.UndoHistory.Record | web/static/composer-richtext.js:220-233 | The array and index move as the past, present and future do: caret move, coalesced append, or a fresh step within the limit |
| UndoStack.UndoHistory.Undo | web/static/composer-richtext.js:237 | Moves one state from the past to the future and returns it, or nothing at the end |
| UndoStack.UndoHistory.Redo | web/static/composer-richtext.js:238 | The converse |
| UndoStack.UndoHistory.Reset | web/static/composer-richtext.js:239 | Leaves one state and no past or future |
| UndoStack.RedosRestore | web/static/composer-richtext.js:237-238 | n redos bring back everything n undos moved |
| UndoStack.UndosReachBack | web/static/composer-richtext.js:237 | n undos show the n-th most recent state and lose none |
| UndoStack.RecordDropsFuture | web/static/composer-richtext.js:220-233 | A record drops the redo branch exactly when it changes the value |
| UndoStack.RecordSays | web/static/composer-richtext.js:220-233 | What a record does to present, past, future and clock, case by case, limit and window included |
| UndoStack.RunOfSteps | web/static/composer-richtext.js:237-238 | A run of undos or of redos goes that far and no further than the end |
| UndoStack.RunStaysBounded | web/static/composer-richtext.js:220-239 | The number of states stays within the limit over every run |
| UndoStack.NavigationLosesNothing | web/static/composer-richtext.js:220-238 | Undos, redos and caret moves, in any number and order, keep the value of every state |
| UndoStack.BurstUndoneAtOnce | web/static/composer-richtext.js:220-233 | A fresh step and any run of tail appends inside the window are undone together by one undo |
| UndoStack.RecordLeavesEqual | web/static/composer-richtext.js:220-233 | Right after a record an undo shows nothing if and only if the record was a caret move or folded in, and the step before holds the recorded value |
| UndoStack.ApartMeansEveryStepShows | web/static/composer-richtext.js:237-238 | Neighbouring states all differ if and only if every single undo and redo, all the way back and forward, changes the value |
| UndoStack.EveryUndoShows | web/static/composer-richtext.js:220-239 | Over every run from such a history, neighbouring states stay different if and only if no append inside the window types the previous step's value back |
| UndoStack.RetypingLeavesEqualEntries | web/static/composer-richtext.js:224-229 | Deleting and retyping inside the window leaves two equal entries side by side |
| Toggle.PressSays | web/static/composer-richtext.js:159-174 | One press, told by the text in front of the selection, the selection and the text behind it |
| Toggle.PressedTwice | web/static/composer-richtext.js:159-174 | Pressing twice restores text and selection if and only if the first press wraps a selection that is not empty, or unwraps one that the second wraps again |
| Toggle.FlankedDelete | web/static/composer-richtext.js:177-196 | The loop takes the first marker of the list that flanks the selection |
| Toggle.WrapThenDelete | web/static/composer-richtext.js:159-196 | Deleting a selection that was just wrapped, in any of the six markers, leaves the text without it and without any marker left over |
| Blocks.RenderBlocks | web/static/format.js:672-745 | The loops compute the specified rendering and terminate, since each quote level has fewer characters; what that is for each kind of block is said by the lemmas of `BlockLaws` |
| Blocks.RenderFirst | web/static/format.js:676-736 | The branch taken at a line renders exactly the block at the front and takes exactly its lines; which lines those are is said by the lemmas of `BlockLaws` |
| Blocks.Reduce | web/static/format.js:739-744 | A `<br>` stands between two pieces exactly when neither is a block element |
| Blocks.SegmentsPartition | web/static/format.js:672-745 | Every line is in exactly one block, no block is empty, and there is one piece of output for each |
| BlockLaws.FencedBlock | web/static/format.js:678-690 | An opening fence, lines none of which closes it, a closing fence and any rest: one code block with the lower-cased language that holds exactly those lines, and the blocks of the rest |
| BlockLaws.OpenFencedBlock | web/static/format.js:678-690 | Unclosed, it runs to the end |
| BlockLaws.QuoteBlock | web/static/format.js:692-702 | Lines quoted in any way are one blockquote around the rendering of what they quote |
| BlockLaws.TableBlock | web/static/format.js:704-716 | A row with a pipe over a delimiter row and the rows behind it are one table, which ends before a line without a pipe, a fence or a quote; its HTML is written out in `TableLaws.Table` |
| WrittenTables.WrittenTable | web/static/format.js:704-716 | Rows written from their cells over and under a delimiter row: one table of exactly these cells, trimmed and escaped, in their places, each column aligned as its delimiter says, then the blocks of the rest |
| Tables.SplitRow | web/static/format.js:587-600 | The scanning loop finds the specified cells |
| TableLaws.CellsReadBack | web/static/format.js:587-600 | Cells written with their pipes escaped, with the outer pipes or without, read back as they are if and only if no cell with a pipe behind it ends in a backslash |
| TableLaws.EscapedCellsReadBack | web/static/format.js:704-712 | The same for the escaped line, which is what the renderer splits |
| TableLaws.AlignIs | web/static/format.js:603-611 | Colons around dashes: centred, right, left, or nothing |
| Tables.RenderTable | web/static/format.js:613-631 | The nested loops give the specified table |
| TableLaws.TableIs | web/static/format.js:613-631 | Every row as wide as the header, short ones filled up, each cell with its column's alignment; a body only if there are more rows |
| BlockLaws.HeaderBlock | web/static/format.js:718-723 | One, two or three number signs and blanks give an h3, h4 or h5 of the text |
| BlockLaws.ListBlock | web/static/format.js:725-734 | A run of lines with a star or a dash and blanks is one list with an item for each |
| BlockLaws.InlineBlock | web/static/format.js:736 | Any other line is inline text |
| BlockLaws.PiecesJoined | web/static/format.js:739-744 | Two runs of pieces are put together with a line break exactly where neither neighbour opens with a block tag, written out |
| BlockLaws.RendersPieces | web/static/format.js:639-653 | A message is the pieces of its lines put together |
| BlockForms.QuoteIs | web/static/format.js:664-665 | A line is quoted, and what it quotes, exactly as its characters say: blanks, the sign, and one blank or none |
| BlockForms.HeaderIs | web/static/format.js:718 | A header, its level and its text, exactly as its characters say |
| BlockForms.ItemIs | web/static/format.js:727-730 | A list item and its text likewise |
| BlockForms.DelimIs | web/static/format.js:577 | The delimiter pattern matches exactly the rows of dashes, colons, pipes and blanks of its grammar |
| Blocks.QuotedBlock | web/static/format.js:692-702 | Quoted lines are one block whatever they hold, a blockquote around the rendering of the original lines; what follows renders as if alone |
| Blocks.QuotingPreservesRendering | web/static/format.js:664-702 | Text quoted k levels deep renders as k nested blockquotes around its own rendering |
| Blocks.ForwardRendersOriginal | web/static/forward.js:27-31 | A forwarded DM renders as the header line and a blockquote of exactly the original's rendering |
| BlockLaws.ForwardsWritten | web/static/forward.js:27-31 | The forwarded text written out, and its rendering |
| Grouping.GroupingAnchor | web/static/grouping.js:16-27 | The backward walk finds the specified anchor |
| Grouping.RenderMessages | web/static/app.js:2071-2120 | The rendering loop draws the specified rows, tombstones and divider |
| Grouping.RenderDeletedRun | web/static/messagelist.js:169-185 | Ends right after the run and counts exactly its live deletions |
| Grouping.LoopAccumulates | web/static/app.js:2077-2120 | What the loop has accumulated at any row, said without the loop, and so independent of the unread divider |
| Grouping.AnchorsAgree | web/static/grouping.js:16-27 | For every list, set of live deletions and row, walk and loop agree if and only if no deleted system row is hidden in front of it; always, when no row is both |
| Grouping.LiveDeletedStillLoaded | web/static/grouping.js:34-43 | The nested loops collect exactly the live deletions some loaded window has a deleted row for |
| Grouping.PruneIsInvisible | web/static/grouping.js:29-43 | Forgetting all the others changes nothing any loaded window draws and no anchor in it |
| Grouping.RowsGroupAlike | web/static/app.js:2077-2120 | Every plain row that no hidden row stands before is drawn by the loop with the flag the backward walk computes |
| Drawing.DrawsRow | web/static/app.js:2077-2120 | A plain message behind any list adds its row, with the divider in front if it is the first past the marker, and grouped exactly when the last message drawn is a plain one by the same author, less than 300,000 ms older, and it is no reply |
| Drawing.DrawsSystemLine | web/static/app.js:2077-2120 | A system message adds its line |
| Drawing.DrawsRun | web/static/messagelist.js:169-185 | A run of deleted messages adds one tombstone with the number of those somebody saw go, or nothing |
| Pane.AppendedIsRebuilt | web/static/app.js:2276-2290 | The fast path at the end of a freshly drawn pane leaves the pane a full rebuild would draw if and only if no divider is due and the message does not continue a row behind a hidden one |
| Pane.InsertedIsRebuilt | web/static/app.js:2276-2290 | Anywhere in the array it does so if and only if there is no live deletion right behind the message, it continues no hidden row, and the first kept row behind it can stay: a plain one keeps its grouping and the divider is not due exactly between the two, otherwise the divider is not due at all |
| Pane.BehindTombstone | web/static/messagelist.js:312-318 | In front of a live deletion it never does |
| Splicing.DropUnseen | web/static/app.js:2071-2120 | Deletions nobody saw can be left out of the array without changing the drawing |
| Pane.InsertKeepsOrder | web/static/messagelist.js:312-318 | A row put at the insertion point keeps the drawn rows in array order |
| Pane.InsertedDistinct | web/static/messagelist.js:312-318 | The inserted row is a second copy exactly when the message was already drawn |
| Pane.RebuildDraws | web/static/app.js:2071-2120 | A rebuild draws every message that is not deleted, in array order, once |
| Pane.MessagePane.InsertionPointFor | web/static/messagelist.js:312-318 | The child found is the next drawn message, else the first pending row, else the bottom sentinel |
| Pane.MessagePane.Render | web/static/app.js:2071-2120 | The rebuilt pane holds the drawn rows and no pending row |
| Pane.MessagePane.AppendMessageRow | web/static/app.js:2276-2290 | One row is added in its array place, above the pending rows, with its anchor's grouping; the pane stays in order |
| Pane.MessagePane.PatchMessageRow | web/static/app.js:2298-2315 | Redraws exactly the row asked for, with its shape; refuses exactly when it is not drawn, being edited, or no longer a plain message |
| Pane.MessagePane.ShowOptimisticSend | web/static/app.js:2354-2379 | Adds one pending row at the tail, grouped under the live tail, with a fresh temporary id |
| Pane.MessagePane.ReconcileOptimistic | web/static/app.js:2390-2415 | Succeeds exactly when the oldest send with that text still has its row; that row goes, the real row comes in its array place, and nothing else moves |
| Pane.MessagePane.RemovePending | web/static/app.js:2418-2424 | Rolls back exactly that send and its row |
| Pane.MessagePane.AddMessage | web/static/state.js:333-350 | Exactly that message is replaced or added, and the array stays in id order |
| Pane.MessagePane.MessageNew | web/static/app.js:828-849 | The message ends up drawn unless deleted; it is drawn twice exactly when it was drawn already and a pending send of the same text still had its row |
| Pane.TwinSendsDrawTwice | web/static/app.js:2390-2415 | The sequence of calls that draws one message twice |
| Listing.ListMessages | internal/store/store_messages.go:64-88 | The page is the newest rows below the cursor, or the newest of all, as a block of the history, oldest first |
| Listing.ReverseInPlace | internal/store/store_messages.go:83-86 | The swapping loop reverses the buffer |
| Listing.ListMessagesAfter | internal/store/store_messages.go:93-106 | The page is the block of the history that starts right after the cursor |
| Listing.GetMessagesAround | internal/store/store_messages.go:111-160 | The window is the block with the message inside and up to half on either side; not found exactly when the channel has no such message |
| Listing.HistoryHolds | internal/store/store_messages.go:64-160 | Which messages a history holds |
| Listing.OlderHolds | internal/store/store_messages.go:64-88 | A message is on the older page exactly when it is below the cursor and among the closest n |
| Listing.NewerHolds | internal/store/store_messages.go:93-106 | The same above the cursor for the newer page |
| Listing.RangeIsBlock | internal/store/store_messages.go:71-76 | Filtering and sorting rows that stand in any order gives a contiguous block of the sorted history |
| Paging.MergesAre | web/static/state.js:298-315 | Prepending or appending a page gives the ascending union without duplicates, whatever the overlap |
| Paging.ChannelView.LoadChannel | web/static/app.js:1846-1851 | The window is the newest page and both flags are right |
| Paging.ChannelView.LoadOlder | web/static/history.js:95-122 | Puts exactly the page above the oldest loaded message in front, on any window, which stays a block or not as it was; the complete flag is set exactly when a short page came back |
| Paging.ChannelView.LoadNewer | web/static/history.js:129-151 | Puts exactly the page below the newest loaded message behind, on any window, which stays a block or not as it was; the history flag goes exactly when a short page came back |
| Paging.ChannelView.JumpTo | web/static/app.js:1906-1935 | The around-window replaces the loaded one and holds the message; the history flag stays exactly when 75 or more messages follow it; an unknown message changes nothing |
| Paging.ChannelView.MessageNew | web/static/app.js:816-849 | Another's message makes or leaves the window a block exactly when it was one that reached the newest message, or was empty; my own in a history window reloads |
| Paging.ChannelView.Broadcast | web/static/app.js:816-849 | A broadcast, however late, is added to what is loaded; my own reloads exactly when history is viewed as it arrives |
| Paging.ChannelView.SendResponse | web/static/app.js:2754-2759 | The response to my own POST is added to what is loaded, in a history window too, and changes no flag |
| Paging.ChannelView.MessageUpdate | web/static/state.js:447-448 | An edit keeps the window a block exactly when its message is loaded or next to the window |
| Paging.ExtendedBlock | web/static/state.js:333-350 | The condition for live messages, on any history and window |
| Paging.EditedBlock | web/static/state.js:333-350 | The condition for edits, on any history and window |
| Paging.HoleIsForgotten | web/static/history.js:129-151 | The page after the newest message is empty |
| Paging.HoleIsKept | web/static/history.js:129-151 | Another's message behind a window that stops short of the newest, and one page forward: the history flag is gone, and the window has a hole |
| Paging.SendFromHistory | web/static/app.js:2754-2759 | My own message from such a window: with one page forward between response and broadcast the flag is gone and the hole stays, without it the reload leaves a valid window with the message |
| Paging.ScrollThrough | web/static/history.js:168-183 | Repeated older and newer fetches end, with the whole history loaded and both flags saying so |
| Pbkdf2.Pbkdf2Sha256 | internal/auth/password.go:42-71 | For every iteration count and length the buffer loops return the derived key of section 5.2 of RFC 8018; a count below 1 counts as 1 |
| Pbkdf2.Block | internal/auth/password.go:51-68 | Overwriting u and t in place leaves T_i in t |
| Pbkdf2.KeyOctet | internal/auth/password.go:42-71 | Octet k of the key is the exclusive or, over all iterations, of octet k mod 32 of block k div 32 + 1 |
| Pbkdf2.KeyBit | internal/auth/password.go:42-71 | Bit b of key octet k is set exactly when an odd number of the outputs of its block, one for each iteration, have it set |
| Pbkdf2.ShorterIsPrefix | internal/auth/password.go:42-71 | A shorter key is a prefix of a longer one |
| Pbkdf2.IndexIsFaithful | internal/auth/password.go:51-54 | The four index octets stand for the block number exactly up to 2^32 - 1 |
| PasswordHash.EncodeHash | internal/auth/password.go:90-94 | The encoded hash is the four fields around the derived key |
| PasswordHash.VerifyPassword | internal/auth/password.go:97-118 | The verdict, error by error, is what the fields and the derived key give |
| PasswordHash.JudgesParts | internal/auth/password.go:98-101 | A hash without exactly three dollar signs is malformed |
| PasswordHash.JudgesFields | internal/auth/password.go:98-118 | One with three is judged by its four parts in order, error by error, and by the key derived from them |
| PasswordHash.FieldsWritten | internal/auth/password.go:90-94 | The text of a fresh hash, scheme and separators written out |
| PasswordHash.Base64RoundTrip | internal/auth/password.go:92-93 | The lenient unpadded decoder undoes the encoder |
| PasswordHash.EncodesBits | internal/auth/password.go:92-93 | Three octets are four digits of six bits over the standard alphabet, the rest zero-filled and unpadded |
| PasswordHash.BreakIsPassed | internal/auth/password.go:106-111 | The decoder passes over a line break wherever it stands |
| PasswordHash.ForeignSpoils | internal/auth/password.go:106-111 | Any other character outside the alphabet is an error |
| PasswordHash.AtoiReads | internal/auth/password.go:102-105 | A signed or unsigned decimal reads as its value if that fits 64 bits |
| PasswordHash.AtoiRefuses | internal/auth/password.go:102-105 | Nothing else reads as a count |
| PasswordHash.FieldsReadBack | internal/auth/password.go:90-114 | Splitting an encoded hash gives back its count, salt and key |
| PasswordHash.AcceptsExactly | internal/auth/password.go:90-118 | A password is accepted against the hash of another exactly when both derive the same key, for every count of at least 1; a smaller count is refused |

## Left out

- OneToken.DecoratesToken: the text around the token holds no marker of any rule, and a name at most one underscore; several tokens in a line are stated pass by pass (`Passes.PassWraps`), and what is shown of any line by `Decorate.DecorateIsFaithful`.
- Pane.InsertedIsRebuilt: speaks of a freshly drawn pane and of a plain message, which is what the callers guarantee (web/static/app.js:2274-2275).
- Pane.MessagePane.PatchMessageRow: the content of a row is not modelled, only its identity, grouping and place.
- Calls.CallInvariants: takes each handler as one step; what interleaving does to the caps is stated by `Caps.InterleavedCaps`, which leaves grace timers and connections out.
- Paging.ChannelView.LoadOlder: fetches are atomic, so overlapping fetches, a page that arrives after a channel switch, and the two loading guards are not modelled.
- Paging.ChannelView.JumpTo: message ids are positive; opening the channel first, and the fallback of the handler for other cursors, are not modelled.
- Hubs.Hub.VoiceList: the sort is any that orders by join time, so ties come in any order.
- Hubs.Hub.Add: a connection's idle flag is kept in the hub's table of connections, not on the connection.
- Sockets, timeouts, slow clients, concurrent writers on one connection, JSON, HTTP routing and store errors.
- The "Call started" and "Call ended" system messages, audiences of broadcasts, denial frames' contents, offer, answer and ice relay, typing and secret frames.
- The client's call teardown on an empty roster, and everything of WebRTC.
- Rendering inside a line (links, images, emoji, spoilers, inline code) and code highlighting: an opaque formatter per line and table cell, and one per code block.
- Reference equality of an unchanged image is the flag `same`; bytes are mathematical sequences.
- Caret and DOM wiring of the composer.
- Scroll geometry, the secret view, drafts, unread counts beyond the divider.
- SHA-256, HMAC, random salts, and the timing of the comparison.
