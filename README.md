# Ritual: a verified model of the ritual state machine and its event stream

Ritual is a small group app. Members of a group write down "things" (an
anecdote, something important, something difficult) that stay hidden until
the group holds a ritual. In the ritual the members vote to start, and the
pending things are shuffled into a fixed order. The things are then revealed
("told") one position at a time. Every change is pushed to the members'
browsers as a server-sent event.

This project models, in Dafny, the core of that system:

- **The ritual controller** (`schema.dfy`, `ritual_spec.dfy`,
  `ritual_proofs.dfy`, `ritual_controller.dfy`, `shuffle.dfy`).
  - The session state machine `voting → active ⇄ paused → completed`, run
    by startVote, castVote, tellCurrent, pauseRitual and resumeRitual.
  - The read-only views: getBroadcastSnapshot and ritualCurrent, with their
    redaction rule.
  - Each request is a function from the tables before it to the tables
    after it and the reply (`RitualSpec`).
  - Each transaction body is also a method over a `Database` object whose
    fields are the tables (`RitualController`). The method is proved to
    leave the tables and the reply exactly where the function says.
  - The properties are proved about the functions (`RitualProofs`). They
    include an invariant of reachable tables (`Wf`): a group has at most
    one open session, and each session's items fit its status and cursor.
    Every operation is proved to keep `Wf`.
- **The event registry** (`ritual_events.dfy`).
  - The map from a group key to the set of open responses, as a `Hub` class:
    ensureSet, subscribe, the close handler, and broadcast.
  - The exact frame text sendSse writes.
- **The client's stream parser** (`sse.dfy`).
  - The line-buffer loop of `subscribeRitualEvents`, both as functions and
    as an `SseReader` class.
  - It is proved independent of how the stream is cut into chunks.
  - It is proved to deliver exactly the data text of every `state` frame
    the server writes, and nothing for pings or other events.
- **The thing controller** (`thing_spec.dfy`, `thing_controller.dfy`).
  - Things are created pending by members.
  - Only their author may edit or delete them, and only while they are
    pending.
- **The group controller** (`group_spec.dfy`, `group_proofs.dfy`,
  `group_controller.dfy`, `group_members.dfy`, `group_history.dfy`).
  - createGroup and its 20-group limit.
  - The inviteToGroup and acceptInvite decisions, with the 20-member and
    20-group limits and case-insensitive email matching.
  - The weight label of the member list.
  - The grouping loop of groupHistory.

Modelling choices:

- A ritual session's id is its index in the sessions table. "Latest" means
  "highest index", which matches `ORDER BY created_at DESC` for rows
  inserted in order.
- The items of a session are a sequence: position `p` is index `p - 1`.
- The schema default of `current_position` is not part of this model. The
  inserts at `ritualController.js:195` and `:256` never set it, and
  tellCurrent reads it at `:441`. The model makes it the explicit constant
  `Schema.INITIAL_POSITION = 1`, so that the first tell hits position 1.
- When tellCurrent reveals the last position, the session completes and
  the cursor stays on that last position; it is not moved past the end
  (`ritualController.js:461-500`).
- The shuffle's own source (`utils/shuffle`) is not part of this model.
  `Shuffle` models it as Fisher–Yates driven by a sequence of random draws
  passed in as a parameter. The rest of the model relies only on its
  result being a permutation of its input.
- The SQL `yes <= total / 2` is a comparison of numbers, not an integer
  division. `RitualProofs.MajorityRule` proves it is the same test as
  `2 * yes <= total`.
- Lengths checked by the request schemas are JavaScript string lengths,
  that is UTF-16 code units (`Schema.Utf16Length`).

## Model

| member | source | states |
|---|---|---|
| RitualSpec.OpenSession | backend/src/controllers/ritualController.js:15-27 | the result is the latest session of the group in voting, active or paused; None exactly when there is none |
| RitualSpec.LatestSession | backend/src/controllers/ritualController.js:29-41 | the result is the latest session of the group whatever its status; None exactly when the group has none |
| RitualSpec.PendingBelow | backend/src/controllers/ritualController.js:261-265 | the group's pending thing ids, strictly ascending, and every pending id below the bound is listed |
| RitualSpec.NewItems | backend/src/controllers/ritualController.js:291-296 | position k+1 holds the k-th id of the order, untold; one item per id |
| RitualProofs.OpenSessionSameShape | backend/src/controllers/ritualController.js:15-27 | the open-session lookup depends only on which sessions are open in the group |
| RitualProofs.OpenIsLatestSession | backend/src/controllers/ritualController.js:15-41 | under the invariant, the open session, when there is one, is also the latest session |
| RitualProofs.AtMostOneOpen | backend/src/controllers/ritualController.js:191-201 | under the invariant a group never has two open sessions |
| RitualProofs.NonMemberRefused | backend/src/controllers/ritualController.js:187-189 | a non-member gets NotMember (status 403) from startVote, castVote with a well-formed vote, tellCurrent, pause, resume and ritualCurrent, with every table unchanged |
| RitualProofs.StartVoteEffect | backend/src/controllers/ritualController.js:187-201 | an open session is returned unchanged; otherwise exactly one session is appended, in voting at the initial position, and nothing else changes |
| RitualProofs.StartVoteIdempotent | backend/src/controllers/ritualController.js:191-201 | a second startVote returns the same session and changes nothing |
| RitualProofs.StartVoteKeepsWf | backend/src/controllers/ritualController.js:191-201 | startVote keeps the invariant, so it never opens a second session for a group |
| RitualSpec.ParseVote | backend/src/controllers/ritualController.js:217 | accepts exactly "yes" and "no", both directions: a parsed vote prints back as its text, and every vote's text parses to it |
| RitualProofs.VoteParsedFirst | backend/src/controllers/ritualController.js:217-219 | a vote other than "yes" or "no" gets InvalidInput (400) with no change, ahead of the membership check; a well-formed vote is cast as parsed |
| RitualProofs.CastVoteRefusals | backend/src/controllers/ritualController.js:225-228 | with no open session castVote replies NoOpenSession, and with an open session not in voting it replies VotingNotOpen; both leave the tables unchanged |
| RitualProofs.RevoteReplaces | backend/src/controllers/ritualController.js:230-237 | the upsert removes the caller from the other choice's voters and adds them to the new one; every other voter is unchanged |
| RitualProofs.VotersDisjoint | backend/src/controllers/ritualController.js:244-248 | no user is counted both as yes and as no in one session |
| RitualProofs.CastVoteRecords | backend/src/controllers/ritualController.js:230-237 | past its guards castVote records the vote, then tallies |
| RitualProofs.ActivateEffect | backend/src/controllers/ritualController.js:255-296 | activation sets the session active, or completed with itemsTold 0 when nothing is pending, appends the shuffled items, and leaves things and votes alone |
| RitualProofs.TallyEffect | backend/src/controllers/ritualController.js:239-258 | at most half yes votes replies with the tally and changes nothing; more than half activates |
| RitualProofs.ActivationThreshold | backend/src/controllers/ritualController.js:250-289 | after the vote the session stays voting iff 2·yes ≤ members, becomes active iff there is a strict majority and something is pending, and completed iff there is a strict majority and nothing is pending |
| RitualProofs.MajorityRule | backend/src/controllers/ritualController.js:250 | `yes <= total / 2` on numbers is the same test as `2 * yes <= total` |
| RitualProofs.PendingIdsExact | backend/src/controllers/ritualController.js:261-265 | the pending-ids query lists exactly the group's pending things, each once |
| RitualProofs.ShuffledPending | backend/src/controllers/ritualController.js:261-266 | the shuffled order holds exactly the group's pending things, each once |
| RitualProofs.ActivatedOrder | backend/src/controllers/ritualController.js:291-296 | after activation, position k+1 holds the k-th id of the shuffled order |
| RitualProofs.ActivatedItems | backend/src/controllers/ritualController.js:261-296 | the activated items are distinct and their ids are exactly the pending things |
| RitualProofs.ActivationCapturesPending | backend/src/controllers/ritualController.js:250-296 | on a strict majority, positions 1..N hold exactly the group's pending things, distinct, as a permutation of the pending ids |
| RitualProofs.CastVoteKeepsWf | backend/src/controllers/ritualController.js:221-301 | castVote keeps the invariant |
| RitualProofs.ActivateKeepsWf | backend/src/controllers/ritualController.js:255-296 | activating a voting session keeps the invariant |
| RitualProofs.TellRefusals | backend/src/controllers/ritualController.js:428-507 | tellCurrent refuses, changing nothing: NoOpenSession, RitualNotActive, NoCurrentItem (no item at the cursor, or its thing is gone), CurrentItemAlreadyTold; and when the open session is active and the cursor holds a pending thing it succeeds, reveals that thing's text, and reports completion exactly on the last position |
| RitualProofs.TellAdvances | backend/src/controllers/ritualController.js:447-507 | a successful tell marks exactly the current thing told and returns its text; the item at the current position becomes told and every other item is unchanged; then the cursor moves by exactly one, or, on the last position, the session completes with the cursor unchanged; every other session and table is untouched |
| RitualProofs.CountToldAll | backend/src/controllers/ritualController.js:484-487 | counting told items when all are told gives the item count |
| RitualProofs.CompletionCountsAllItems | backend/src/controllers/ritualController.js:484-499 | under the invariant, the completing tell reports every position as told |
| RitualProofs.TellKeepsWf | backend/src/controllers/ritualController.js:424-508 | tellCurrent keeps the invariant |
| RitualProofs.PauseResumeEffect | backend/src/controllers/ritualController.js:526-564 | pause succeeds only from active, to paused; resume only from paused, to active; neither touches the cursor, the votes, the items or the things |
| RitualProofs.PauseThenResume | backend/src/controllers/ritualController.js:526-564 | a resume right after a successful pause succeeds and restores every table |
| RitualProofs.RestatusKeepsWf | backend/src/controllers/ritualController.js:530-533 | changing the status of an open session to one its items fit keeps the invariant |
| RitualProofs.PauseResumeKeepWf | backend/src/controllers/ritualController.js:522-565 | pause and resume keep the invariant |
| RitualProofs.Redaction | backend/src/controllers/ritualController.js:104-116 | in the snapshot and in ritualCurrent the current item's text is present iff its thing is told, and is then the thing's text |
| RitualProofs.SnapshotAgreesWithCurrent | backend/src/controllers/ritualController.js:362-414 | under the invariant ritualCurrent and the broadcast snapshot show the same session and the same redacted current item |
| RitualProofs.ToldStaysTold | backend/src/controllers/ritualController.js:444-450 | tellCurrent never changes or removes a thing that is already told |
| RitualController.StartVote | backend/src/controllers/ritualController.js:187-202 | the transaction leaves the tables and the reply exactly where RitualSpec.StartVote says |
| RitualController.CastVote | backend/src/controllers/ritualController.js:213-302 | the vote parse and the transaction leave the tables and the reply exactly where RitualSpec.CastVoteRequest says |
| RitualController.TallyVotes | backend/src/controllers/ritualController.js:239-253 | the count and the decision, as RitualSpec.Tally |
| RitualController.Activate | backend/src/controllers/ritualController.js:255-301 | status flip, in-place shuffle, and item inserts or immediate completion, as RitualSpec.Activate |
| RitualController.InsertItems | backend/src/controllers/ritualController.js:291-296 | the loop appends one untold item per id of the order, at positions 1..N |
| RitualController.TellCurrent | backend/src/controllers/ritualController.js:424-508 | the transaction leaves the tables and the reply exactly where RitualSpec.TellCurrent says |
| RitualController.PauseRitual | backend/src/controllers/ritualController.js:522-538 | as RitualSpec.Pause |
| RitualController.ResumeRitual | backend/src/controllers/ritualController.js:552-565 | as RitualSpec.Resume |
| Shuffle.SwapPermutes | backend/src/controllers/ritualController.js:266 | a swap keeps the length and the multiset |
| Shuffle.ShuffleFromPermutes | backend/src/controllers/ritualController.js:266 | every Fisher–Yates step keeps the length and the multiset |
| Shuffle.ShufflePermutes | backend/src/controllers/ritualController.js:266 | the shuffled order is a permutation of the ids it was given |
| Shuffle.ShuffleInPlace | backend/src/controllers/ritualController.js:266 | the in-place array shuffle leaves the array equal to Shuffle.Shuffled of its old contents |
| Shuffle.PermutationKeepsDistinct | backend/src/controllers/ritualController.js:265-266 | a permutation of a duplicate-free sequence is duplicate-free |
| Shuffle.DistinctCountsOnce | backend/src/controllers/ritualController.js:265 | a duplicate-free sequence holds each value at most once |
| RitualEvents.Frame | backend/src/ritualEvents.js:12-15 | the frame starts with `event: ` and ends with the blank line that closes the event; its length is that of the name plus the data plus 16 |
| RitualEvents.FrameInjective | backend/src/ritualEvents.js:12-15 | the event name and the data can be read back from a frame |
| RitualEvents.NatText | backend/src/ritualEvents.js:7 | `String(n)` of a natural number is a non-empty string of digits |
| RitualEvents.NatTextValue | backend/src/ritualEvents.js:7 | the digits of `String(n)` read back as n |
| RitualEvents.IntTextValue | backend/src/ritualEvents.js:7 | `String(n)` of an integer reads back as n, sign included |
| RitualEvents.KeyAgreement | backend/src/ritualEvents.js:7 | a numeric id and its decimal text address the same set, and different numeric ids never share one |
| RitualEvents.Subscribed | backend/src/ritualEvents.js:17-19 | after a subscribe, the response is in its key's set, and no other key appears or disappears |
| RitualEvents.Unsubscribed | backend/src/ritualEvents.js:21-24 | after the close handler, the response is no longer in its key's set, and no other key appears or disappears |
| RitualEvents.RegistryLaws | backend/src/ritualEvents.js:17-24 | subscribe and close keep every set non-empty and leave other keys' sets as they were; closing right after a fresh subscribe restores the registry |
| RitualEvents.Response.Write | backend/src/ritualEvents.js:13-14 | a write appends the chunk, or throws (false) on a broken response and appends nothing |
| RitualEvents.SendSse | backend/src/ritualEvents.js:12-15 | the response's output grows by exactly the frame, or is unchanged when the response is broken |
| RitualEvents.Hub.EnsureSet | backend/src/ritualEvents.js:6-10 | the key's set is returned, created empty if absent, and the registry is otherwise unchanged |
| RitualEvents.Hub.Subscribe | backend/src/ritualEvents.js:17-19 | the registry becomes RitualEvents.Subscribed of the old one |
| RitualEvents.Hub.Unsubscribe | backend/src/ritualEvents.js:21-24 | the registry becomes RitualEvents.Unsubscribed of the old one |
| RitualEvents.Hub.Broadcast | backend/src/ritualEvents.js:35-45 | every response of the group gets exactly one state frame unless it is broken; broken ones are skipped without stopping the loop; a group with no entry gets nothing |
| SseClient.TrimStart | frontend/src/sse.js:54 | drops exactly the leading white space |
| SseClient.TrimEnd | frontend/src/sse.js:54 | drops exactly the trailing white space |
| SseClient.TrimLaws | frontend/src/sse.js:54 | a trimmed text neither starts nor ends with white space; a tight text is its own trim, also after one leading space |
| SseClient.StripCr | frontend/src/sse.js:37 | the line, or the line minus one trailing carriage return |
| SseClient.IndexOf | frontend/src/sse.js:33 | the first index of the character, or -1 when it does not occur |
| SseClient.DrainLine | frontend/src/sse.js:33-35 | a line and its line break are handled, then the rest is drained |
| SseClient.DrainLeavesPartialLine | frontend/src/sse.js:33-35 | no line break is left in the buffer after draining |
| SseClient.DrainKeepsTail | frontend/src/sse.js:33-35 | what stays buffered is a tail of the buffer |
| SseClient.DrainAppend | frontend/src/sse.js:30-35 | draining a + b is draining a, then draining its leftover followed by b |
| SseClient.FeedChunkAppend | frontend/src/sse.js:30-35 | feeding c + rest is feeding c, then feeding rest |
| SseClient.ChunkingIndependent | frontend/src/sse.js:27-35 | feeding chunks one by one delivers the same data, leaves the same buffer and the same fields as feeding their concatenation |
| SseClient.CommentLine | frontend/src/sse.js:38 | a line starting with `:` changes no field and delivers nothing |
| SseClient.CrLfLine | frontend/src/sse.js:37 | a line ending in CR LF is read like the same line ending in LF |
| SseClient.EventFieldLine | frontend/src/sse.js:53-56 | an `event:` line sets the event to the trimmed rest and delivers nothing |
| SseClient.DataFieldLine | frontend/src/sse.js:57-60 | a `data:` line replaces (does not extend) the data with the trimmed rest |
| SseClient.BlankLine | frontend/src/sse.js:40-51 | a blank line delivers the data iff the event is `state` and the data is non-empty, and resets both fields |
| SseClient.PingDrains | frontend/src/sse.js:38 | the keep-alive ping the server writes delivers nothing |
| SseClient.FrameDrains | frontend/src/sse.js:40-59 | a frame between idle fields delivers its data iff its event is `state`, and leaves the parser idle |
| SseClient.OneMessage | frontend/src/sse.js:37-59 | one message (a ping or a frame) between idle fields delivers its data exactly when it is a state frame |
| SseClient.WireRoundTrip | frontend/src/sse.js:33-59 | the server's output for any message sequence, read in one piece, delivers exactly the data of its state frames, in order, and leaves nothing buffered |
| SseClient.StreamRoundTrip | frontend/src/sse.js:27-61 | the same, in any chunking of the stream |
| SseClient.SseReader.Feed | frontend/src/sse.js:30-61 | appending a chunk and running the inner loop gives SseClient.FeedChunk of the old state |
| SseClient.SseReader.TakeLine | frontend/src/sse.js:37-60 | one line: the fields and the delivered data become those of SseClient.HandleLine |
| SseClient.SseReader.Run | frontend/src/sse.js:27-30 | reading every chunk gives SseClient.Consume of the old state |
| ThingSpec.ParseKind | backend/src/utils/validation.js:9 | a name is accepted iff it is the name of a thing type, and the result has that name |
| ThingSpec.ParseWeight | backend/src/utils/validation.js:10 | a name is accepted iff it is the name of an emotional weight, and the result has that name |
| ThingSpec.Validate | backend/src/controllers/thingController.js:9-15 | the body is accepted iff the text is 1..5000 code units and both enums are known; the draft carries the same text, type and weight; refusal is InvalidInput |
| ThingSpec.Editable | backend/src/controllers/thingController.js:67-74 | no refusal only for an existing pending thing of the caller |
| ThingSpec.CreateThingEffect | backend/src/controllers/thingController.js:9-27 | success iff the input is valid and the caller is a member; invalid input is refused before membership; success inserts one pending thing of the caller under a fresh id and changes nothing else |
| ThingSpec.EditRefusals | backend/src/controllers/thingController.js:59-96 | update and delete refuse in order InvalidInput (update), ThingNotFound, NotTheAuthor, not pending, always without change; they succeed iff the thing exists, is the caller's and is pending |
| ThingSpec.UpdateChangesOnlyContent | backend/src/controllers/thingController.js:76-81 | a successful update replaces text, type and weight only; group, author, status, other things and other tables are kept |
| ThingSpec.DeleteRemovesOnlyIt | backend/src/controllers/thingController.js:89-98 | a successful delete removes exactly that pending thing of the caller |
| ThingSpec.ToldThingsFrozen | backend/src/controllers/thingController.js:74 | no create, update or delete changes or removes a told thing |
| ThingSpec.OnlyThingsChangedKeepsWf | backend/src/controllers/thingController.js:24-27 | changing only the things table, with ids below the counter, keeps the invariant |
| ThingSpec.CreateThingKeepsWf | backend/src/controllers/thingController.js:24-27 | createThing keeps the ritual invariant |
| ThingSpec.UpdateThingKeepsWf | backend/src/controllers/thingController.js:76-81 | updateThing keeps the ritual invariant |
| ThingSpec.DeleteThingKeepsWf | backend/src/controllers/thingController.js:98 | deleteThing keeps the ritual invariant |
| ThingController.CreateThing | backend/src/controllers/thingController.js:5-30 | the handler leaves the tables and the reply exactly where ThingSpec.CreateThing says |
| ThingController.UpdateThing | backend/src/controllers/thingController.js:55-83 | as ThingSpec.UpdateThing |
| ThingController.DeleteThing | backend/src/controllers/thingController.js:85-100 | as ThingSpec.DeleteThing |
| GroupSpec.LowerAscii | backend/src/controllers/groupController.js:215 | same length, and each character lowercased |
| GroupSpec.UserByEmail | backend/src/controllers/groupController.js:203-205 | a user with exactly that email, or None when no user has it |
| GroupSpec.FindInvite | backend/src/controllers/groupController.js:292-301 | a pending invite with the token hash (the first one), or None exactly when there is none |
| GroupProofs.AddMemberCounts | backend/src/controllers/groupController.js:268-271 | a new membership row raises that group's member count and that user's group count by one and no other count |
| GroupProofs.CreateGroupEffect | backend/src/controllers/groupController.js:43-68 | success iff the name is 2..120 code units and the caller is in fewer than 20 groups; the fresh group has the caller as its only member; a refusal changes nothing |
| GroupProofs.CreateGroupKeepsLimits | backend/src/controllers/groupController.js:49-63 | createGroup keeps the table invariants and both limits |
| GroupProofs.LowerAsciiIdempotent | backend/src/controllers/groupController.js:215 | lowercasing twice is lowercasing once |
| GroupProofs.StoredEmailMatches | backend/src/controllers/groupController.js:302-303 | storing the invite email lowercased does not change which accounts match it |
| GroupProofs.UserByEmailFinds | backend/src/controllers/groupController.js:203-205 | with unique emails the lookup finds the one user with that email |
| GroupProofs.InviteOutcomes | backend/src/controllers/groupController.js:188-273 | the invite's outcomes in source order: InvalidInput, NotMember, alreadyMember, added only below both limits, an unknown email stored lowercased, a pending invite short-circuiting; refusals and short-circuits change nothing; and conversely GroupNotFound for a missing group, then for a registered non-member MemberLimitReached, UserGroupLimitReached or the added row, and for an unknown email MemberLimitReached, AlreadyInvited or the new lowercased pending invite, each in source order |
| GroupProofs.AppendPendingKeepsUnique | backend/src/controllers/groupController.js:216-242 | appending a pending invite where none is pending for that group and email keeps pending invites unique |
| GroupProofs.InviteKeepsInvariants | backend/src/controllers/groupController.js:194-273 | inviteToGroup keeps the table invariants, both limits and the uniqueness of pending invites |
| GroupProofs.AddMemberLimits | backend/src/controllers/groupController.js:254-271 | adding a membership below both limits keeps the invariants and the limits |
| GroupProofs.AcceptOutcomes | backend/src/controllers/groupController.js:279-342 | acceptInvite's refusals in order (InvalidInput, UnknownUser, InviteNotFound, a case-insensitive email mismatch) change nothing; success marks the invite accepted by the caller and makes the caller a member, adding a row only below both limits; once the emails match, a caller already in the group is accepted with no limit check and no new row, and anyone else gets MemberLimitReached, then UserGroupLimitReached, else the new row and the accepted invite |
| GroupProofs.AcceptKeepsInvariants | backend/src/controllers/groupController.js:285-343 | acceptInvite keeps the table invariants, both limits and the uniqueness of pending invites |
| GroupProofs.CreateGroupKeepsRitualWf | backend/src/controllers/groupController.js:55-68 | createGroup keeps the ritual invariant |
| GroupProofs.InviteKeepsRitualWf | backend/src/controllers/groupController.js:194-273 | inviteToGroup keeps the ritual invariant |
| GroupProofs.AcceptKeepsRitualWf | backend/src/controllers/groupController.js:285-343 | acceptInvite keeps the ritual invariant |
| GroupProofs.RitualUntouched | backend/src/controllers/groupController.js:55-68 | tables whose sessions, items and things are unchanged keep the ritual invariant |
| GroupController.CreateGroup | backend/src/controllers/groupController.js:43-78 | the handler leaves the tables and the reply exactly where GroupSpec.CreateGroup says |
| GroupController.LookUpUser | backend/src/controllers/groupController.js:203-205 | the users scan finds GroupSpec.UserByEmail |
| GroupController.InviteToGroup | backend/src/controllers/groupController.js:186-276 | as GroupSpec.InviteToGroup |
| GroupController.AcceptInvite | backend/src/controllers/groupController.js:278-346 | as GroupSpec.AcceptInvite |
| GroupMembers.WeightScore | backend/src/controllers/groupController.js:102-109 | each weight scores 1, 2 or 3 |
| GroupMembers.AuthoredBy | backend/src/controllers/groupController.js:112 | the ids written by the user, and only those |
| GroupMembers.PendingOf | backend/src/controllers/groupController.js:110-113 | exactly the member's pending things in the group |
| GroupMembers.MaxScore | backend/src/controllers/groupController.js:102-109 | None iff there are no things; otherwise a score some thing has and no thing exceeds |
| GroupMembers.WeightLabel | backend/src/controllers/groupController.js:121-125 | a label iff the score is 1, 2 or 3, and the label's score is the score |
| GroupMembers.NormalizeMembers | backend/src/controllers/groupController.js:120-133 | one view per row, in order, with the same id and count and the row's label |
| GroupMembers.LabelInvertsScore | backend/src/controllers/groupController.js:102-125 | labelling a weight's score gives back that weight |
| GroupMembers.PendingWeightIsHeaviest | backend/src/controllers/groupController.js:95-133 | a member with no pending thing in the group has the score 0 that `MAX` gives over the LEFT JOIN's null row, and a null label; otherwise the label is the weight of one of their pending things and none is heavier |
| GroupHistory.IndexOfSession | backend/src/controllers/groupController.js:385 | the index of the entry with that session id, or -1 when there is none |
| GroupHistory.SessionIds | backend/src/controllers/groupController.js:383-389 | the distinct session ids of the rows, each once, exactly those that occur |
| GroupHistory.FirstRow | backend/src/controllers/groupController.js:385-389 | the index of the first row of the session |
| GroupHistory.ItemsForAbsent | backend/src/controllers/groupController.js:383-398 | a session with no row has no items |
| GroupHistory.GroupedIsExpected | backend/src/controllers/groupController.js:381-398 | the loop builds, per session, its id, the date of its first row and its items in row order |
| GroupHistory.FirstAppearanceOrder | backend/src/controllers/groupController.js:385-389 | the sessions appear in the order of their first rows |
| GroupHistory.EveryRowOneItem | backend/src/controllers/groupController.js:390-397 | the number of items equals the number of rows |
| GroupHistory.HistoryGrouping | backend/src/controllers/groupController.js:381-398 | one entry per distinct session, in order of first appearance, each with its first row's date and its rows' items in order; every row lands in one entry |
| GroupHistory.NewSessionRow | backend/src/controllers/groupController.js:385-389 | a row whose key is not indexed starts a new entry at the end |
| GroupHistory.KnownSessionRow | backend/src/controllers/groupController.js:384-390 | a row whose key names an entry joins that entry, since the text of an id determines the id |
| GroupHistory.PlaceRow | backend/src/controllers/groupController.js:384-397 | the loop body keeps the index consistent and adds the row as GroupHistory.AddRow |
| GroupHistory.GroupRows | backend/src/controllers/groupController.js:381-398 | the loop's result is GroupHistory.Grouped of the rows |

## Left out

- Time: `created_at`, `activated_at`, `paused_at`, `completed_at`, `told_at` timestamps are not modelled; a told item is a flag.
- Time: `waitedDays` and the closure's `daysSinceLastRitual` (DATEDIFF and CURRENT_TIMESTAMP) are left out because they depend on the clock.
- Joined display fields: users' nicknames and avatars, and the member list's ordering by nickname, are not modelled; a member row is identified by the user id.
- getBroadcastSnapshot's `closure` gives `itemsTold` as the count of the session's items, as the query does; the previous completion date is left out.
- castVote's reply on an empty activation reports `noVotes` as `total - yes`, as the code does (it is carried in the reply, not counted).
- ritualState (the read of the tally at `ritualController.js:312-333`) is not a separate operation; its reply is RitualSpec.ComputeState, which castVote also uses.
- ritualStream's subscribe-time frames are left out (the 403 `error` frame, the first `state` frame, and the headers); only the registry and the frame text are modelled.
- keepAlive's timer loop is left out: it is liveness, not state. Its ping text is modelled (SseClient.PingDrains).
- Concurrency is left out. Each transaction body is one atomic step. The separate broadcast transaction after each change, and races between requests, are not modelled.
- The broadcast's payload is an opaque JSON text; JSON.stringify and JSON.parse are not modelled.
- The client's TextDecoder, fetch, AbortController and the `closed` flag are left out; the reader's chunks are a sequence of strings.
- The order in which broadcast walks a set is left out: the model visits the set in an unspecified order.
- The close handler is modelled as an explicit Hub.Unsubscribe method, not as an event. A response closed twice, or closed after a re-subscribe, is not modelled separately.
- Shuffle randomness: the draws are a parameter; the model proves only the permutation property of the result.
- castVote's request body is modelled by its `vote` field as text; a body that is not an object, or has no string `vote`, reads as a text other than "yes" and "no" and gets the same 400.
- Route parameter parsing (`Number(...)` and `Number.isFinite`) is left out: ids reach the model as integers.
- `String()` of a non-integer number is left out: group keys are built from integer ids or from route text.
- Email syntax checking is a boolean parameter (`emailOk`), the verdict of the email schema.
- The invite token's generation and its SHA-256 hash are parameters (`tokenHash`, and a `hash` function for acceptInvite).
- GroupSpec.LowerAscii: lowercases ASCII letters only, not the whole of Unicode as `toLowerCase` does.
- GroupSpec.UserByEmail: the users lookup compares emails exactly; database collation (which may ignore case) is not modelled.
- GroupController.LookUpUser: requires the users table to hold each email at most once, as registration ensures; with duplicate emails the source returns an arbitrary one.
- GroupController.InviteToGroup: requires unique emails for the same reason.
- GroupSpec.FindInvite: takes the first matching pending invite, while the query has no ORDER BY and may return any match; token hashes come from fresh random tokens, so in practice at most one invite matches.
- Deleting a pending thing that is already frozen into an active ritual's items is allowed, as in the code; the item then points to a missing thing and tellCurrent replies NoCurrentItem.
- listGroups, listMyPendingThings and the rest of getGroup (its ritual summary and group fields) are not part of this model.
- Authentication, JWT, routing and the Express wiring are not part of this model.
