/** The ritual session state machine of the ritual controller, as functions
    from the tables before a request to the tables after it and the reply.
    Each function is one transaction: its effects happen together or, on an
    error reply, not at all. */
module RitualSpec {
  import opened Schema
  import Shuffle

  /** assertMember: the caller belongs to the group. */
  predicate IsMember(t: Tables, g: GroupId, u: UserId)
  {
    (g, u) in t.members
  }

  predicate IsOpen(s: Session)
  {
    s.status == Voting || s.status == Active || s.status == Paused
  }

  predicate OpenIn(s: Session, g: GroupId)
  {
    s.groupId == g && IsOpen(s)
  }

  /** getOpenSession: the latest session of the group whose status is
      voting, active or paused. */
  function OpenSession(sessions: seq<Session>, g: GroupId): (r: Option<SessionId>)
    ensures r.Some? ==> r.value < |sessions| && OpenIn(sessions[r.value], g)
    ensures r.Some? ==> forall j :: r.value < j < |sessions| ==> !OpenIn(sessions[j], g)
    ensures r.None? ==> forall j :: 0 <= j < |sessions| ==> !OpenIn(sessions[j], g)
  {
    if |sessions| == 0 then None
    else if OpenIn(sessions[|sessions| - 1], g) then Some(|sessions| - 1)
    else OpenSession(sessions[..|sessions| - 1], g)
  }

  /** getLatestSession: the latest session of the group, whatever its status. */
  function LatestSession(sessions: seq<Session>, g: GroupId): (r: Option<SessionId>)
    ensures r.Some? ==> r.value < |sessions| && sessions[r.value].groupId == g
    ensures r.Some? ==> forall j :: r.value < j < |sessions| ==> sessions[j].groupId != g
    ensures r.None? ==> forall j :: 0 <= j < |sessions| ==> sessions[j].groupId != g
  {
    if |sessions| == 0 then None
    else if sessions[|sessions| - 1].groupId == g then Some(|sessions| - 1)
    else LatestSession(sessions[..|sessions| - 1], g)
  }

  function GroupMembers(t: Tables, g: GroupId): set<UserId>
  {
    set p | p in t.members && p.0 == g :: p.1
  }

  /** The member count of a group (COUNT(*) over group_members). */
  function MemberCount(t: Tables, g: GroupId): nat
  {
    |GroupMembers(t, g)|
  }

  /** The users whose recorded vote in the session is `choice`; the vote
      table holds one vote per (session, user), so each user is counted once. */
  function Voters(votes: map<(SessionId, UserId), VoteChoice>, sid: SessionId, choice: VoteChoice): set<UserId>
  {
    set k | k in votes && k.0 == sid && votes[k] == choice :: k.1
  }

  predicate IsPendingIn(things: map<ThingId, Thing>, g: GroupId, id: ThingId)
  {
    id in things && things[id].groupId == g && things[id].status == Pending
  }

  /** The pending things of the group with ids below `n`, by ascending id. */
  function PendingBelow(things: map<ThingId, Thing>, g: GroupId, n: nat): (r: seq<ThingId>)
    ensures forall i :: 0 <= i < |r| ==> r[i] < n && IsPendingIn(things, g, r[i])
    ensures forall i, j :: 0 <= i < j < |r| ==> r[i] < r[j]
    ensures forall id: ThingId :: id < n && IsPendingIn(things, g, id) ==> id in r
  {
    if n == 0 then []
    else PendingBelow(things, g, n - 1) + (if IsPendingIn(things, g, n - 1) then [n - 1] else [])
  }

  /** The ids of the group's pending things, in ascending order. */
  function PendingIds(t: Tables, g: GroupId): seq<ThingId>
  {
    PendingBelow(t.things, g, t.nextThingId)
  }

  /** The rows of ritual_session_items for one session, by position. */
  function ItemsIn(items: map<SessionId, seq<SessionItem>>, sid: SessionId): seq<SessionItem>
  {
    if sid in items then items[sid] else []
  }

  function ItemsOf(t: Tables, sid: SessionId): seq<SessionItem>
  {
    ItemsIn(t.items, sid)
  }

  /** The item rows inserted at activation: position k + 1 holds order[k]. */
  function NewItems(order: seq<ThingId>): (r: seq<SessionItem>)
    ensures |r| == |order|
    ensures forall k :: 0 <= k < |r| ==> r[k] == SessionItem(order[k], false)
  {
    seq(|order|, k requires 0 <= k < |order| => SessionItem(order[k], false))
  }

  lemma NewItemsSnoc(order: seq<ThingId>, x: ThingId)
    ensures NewItems(order + [x]) == NewItems(order) + [SessionItem(x, false)]
  {
  }

  function ThingIds(its: seq<SessionItem>): (r: seq<ThingId>)
    ensures |r| == |its|
    ensures forall k :: 0 <= k < |r| ==> r[k] == its[k].thingId
  {
    seq(|its|, k requires 0 <= k < |its| => its[k].thingId)
  }

  /** The number of items whose told_at is set. */
  function CountTold(its: seq<SessionItem>): nat
  {
    if |its| == 0 then 0
    else CountTold(its[..|its| - 1]) + (if its[|its| - 1].told then 1 else 0)
  }

  // ---------------------------------------------------------------------
  // Replies

  datatype SessionView = SessionView(id: SessionId, groupId: GroupId, status: SessionStatus,
                                     currentPosition: nat)

  /** normalizeSession: the public view of a session row. */
  function Normalize(sessions: seq<Session>, sid: SessionId): (v: SessionView)
    requires sid < |sessions|
  {
    SessionView(sid, sessions[sid].groupId, sessions[sid].status, sessions[sid].position)
  }

  datatype VotingView = VotingView(totalMembers: nat, yesVotes: nat, noVotes: int,
                                   myVote: Option<VoteChoice>)

  datatype StartReply = Existing(session: SessionView) | Created(session: SessionView)

  datatype VoteReply =
    | Tallied(session: SessionView, voting: VotingView)
    | Activated(session: SessionView)
    | ClosedEmpty(session: SessionView, voting: VotingView, itemsTold: nat)

  datatype TellReply = TellReply(revealedText: string, completed: bool, itemsTold: Option<nat>)

  /** The tables after a request and the reply to it. */
  datatype Step<R> = Step(next: Tables, reply: Result<R>)

  // ---------------------------------------------------------------------
  // Operations

  /** startVote: return the open session if there is one, otherwise insert a
      new session in `voting`. */
  function StartVote(t: Tables, g: GroupId, u: UserId): Step<StartReply>
  {
    if !IsMember(t, g, u) then Step(t, Err(NotMember))
    else match OpenSession(t.sessions, g)
      case Some(sid) => Step(t, Ok(Existing(Normalize(t.sessions, sid))))
      case None =>
        var sessions' := t.sessions + [Session(g, Voting, INITIAL_POSITION)];
        Step(t.(sessions := sessions'), Ok(Created(Normalize(sessions', |t.sessions|))))
  }

  /** computeState: the session and its tally as seen by user `u`. */
  function ComputeState(t: Tables, sid: SessionId, total: nat, u: UserId): (r: VoteReply)
    requires sid < |t.sessions|
  {
    Tallied(Normalize(t.sessions, sid),
            VotingView(total, |Voters(t.votes, sid, Yes)|, |Voters(t.votes, sid, No)|,
                       if (sid, u) in t.votes then Some(t.votes[(sid, u)]) else None))
  }

  /** The text of a vote in a request body. */
  function VoteName(v: VoteChoice): string
  {
    match v
    case Yes => "yes"
    case No => "no"
  }

  /** The `vote` enum of castVote's request schema. */
  function ParseVote(s: string): (r: Option<VoteChoice>)
    ensures r.Some? ==> VoteName(r.value) == s
    ensures forall v: VoteChoice :: VoteName(v) == s ==> r == Some(v)
  {
    if s == "yes" then Some(Yes)
    else if s == "no" then Some(No)
    else None
  }

  /** The castVote request: the body's `vote` is parsed before the
      transaction, so a malformed vote is refused with 400 whoever sends it;
      a well-formed one goes on to CastVote. */
  function CastVoteRequest(t: Tables, g: GroupId, u: UserId, vote: string, draws: seq<nat>): Step<VoteReply>
  {
    match ParseVote(vote)
    case None => Step(t, Err(InvalidInput))
    case Some(v) => CastVote(t, g, u, v, draws)
  }

  /** castVote: record the caller's vote; on a strict majority of yes votes,
      activate the session. */
  function CastVote(t: Tables, g: GroupId, u: UserId, v: VoteChoice, draws: seq<nat>): Step<VoteReply>
  {
    if !IsMember(t, g, u) then Step(t, Err(NotMember))
    else match OpenSession(t.sessions, g)
      case None => Step(t, Err(NoOpenSession))
      case Some(sid) =>
        if t.sessions[sid].status != Voting then Step(t, Err(VotingNotOpen))
        else Tally(t.(votes := t.votes[(sid, u) := v]), g, sid, u, v, draws)
  }

  /** What castVote does once the vote of `u` is recorded: count the yes
      votes against the group's member count and activate on a strict
      majority. `yes <= total / 2` in the source is a division on numbers,
      so it is the same test as `2 * yes <= total`. */
  function Tally(t: Tables, g: GroupId, sid: SessionId, u: UserId, v: VoteChoice, draws: seq<nat>): Step<VoteReply>
    requires sid < |t.sessions|
  {
    var total := MemberCount(t, g);
    var yes := |Voters(t.votes, sid, Yes)|;
    if 2 * yes <= total then Step(t, Ok(ComputeState(t, sid, total, u)))
    else Activate(t, g, sid, VotingView(total, yes, total - yes, Some(v)), draws)
  }

  /** The activation step of castVote: capture the group's pending things in
      the order the shuffle gives as positions 1..N, or close the session at
      once when nothing is pending (`voting` is the tally that close reports). */
  function Activate(t: Tables, g: GroupId, sid: SessionId, voting: VotingView, draws: seq<nat>): Step<VoteReply>
    requires sid < |t.sessions|
  {
    var order := Shuffle.Shuffled(PendingIds(t, g), draws);
    if |order| == 0 then
      var sessions' := t.sessions[sid := t.sessions[sid].(status := Completed)];
      Step(t.(sessions := sessions'), Ok(ClosedEmpty(Normalize(sessions', sid), voting, 0)))
    else
      var sessions' := t.sessions[sid := t.sessions[sid].(status := Active)];
      Step(t.(sessions := sessions', items := t.items[sid := ItemsOf(t, sid) + NewItems(order)]),
           Ok(Activated(Normalize(sessions', sid))))
  }

  /** tellCurrent: reveal the thing at the current position, mark it told,
      then advance by one position or, past the last position, complete. */
  function TellCurrent(t: Tables, g: GroupId, u: UserId): Step<TellReply>
  {
    if !IsMember(t, g, u) then Step(t, Err(NotMember))
    else match OpenSession(t.sessions, g)
      case None => Step(t, Err(NoOpenSession))
      case Some(sid) =>
        var s := t.sessions[sid];
        var its := ItemsOf(t, sid);
        if s.status != Active then Step(t, Err(RitualNotActive))
        else if !(1 <= s.position <= |its|) || its[s.position - 1].thingId !in t.things then
          Step(t, Err(NoCurrentItem))
        else
          var id := its[s.position - 1].thingId;
          var thing := t.things[id];
          if thing.status != Pending then Step(t, Err(CurrentItemAlreadyTold))
          else
            var its' := its[s.position - 1 := its[s.position - 1].(told := true)];
            var told := t.(things := t.things[id := thing.(status := Told)],
                           items := t.items[sid := its']);
            if s.position + 1 > |its| then
              Step(told.(sessions := t.sessions[sid := s.(status := Completed)]),
                   Ok(TellReply(thing.text, true, Some(CountTold(its')))))
            else
              Step(told.(sessions := t.sessions[sid := s.(position := s.position + 1)]),
                   Ok(TellReply(thing.text, false, None)))
  }

  /** pauseRitual: active becomes paused. */
  function Pause(t: Tables, g: GroupId, u: UserId): Step<SessionView>
  {
    if !IsMember(t, g, u) then Step(t, Err(NotMember))
    else match OpenSession(t.sessions, g)
      case None => Step(t, Err(NoOpenSession))
      case Some(sid) =>
        if t.sessions[sid].status != Active then Step(t, Err(NotActive))
        else
          var sessions' := t.sessions[sid := t.sessions[sid].(status := Paused)];
          Step(t.(sessions := sessions'), Ok(Normalize(sessions', sid)))
  }

  /** resumeRitual: paused becomes active. */
  function Resume(t: Tables, g: GroupId, u: UserId): Step<SessionView>
  {
    if !IsMember(t, g, u) then Step(t, Err(NotMember))
    else match OpenSession(t.sessions, g)
      case None => Step(t, Err(NoOpenSession))
      case Some(sid) =>
        if t.sessions[sid].status != Paused then Step(t, Err(NotPaused))
        else
          var sessions' := t.sessions[sid := t.sessions[sid].(status := Active)];
          Step(t.(sessions := sessions'), Ok(Normalize(sessions', sid)))
  }

  // ---------------------------------------------------------------------
  // Read-only views

  datatype CurrentItem = CurrentItem(position: nat, thingId: ThingId, author: UserId,
                                     kind: ThingType, weight: EmotionalWeight,
                                     text: Option<string>, thingStatus: ThingStatus)

  /** The item at the session's current position joined with its thing; the
      text is withheld while the thing is still pending. */
  function CurrentItemOf(t: Tables, sid: SessionId): Option<CurrentItem>
    requires sid < |t.sessions|
  {
    var s := t.sessions[sid];
    var its := ItemsOf(t, sid);
    if 1 <= s.position <= |its| && its[s.position - 1].thingId in t.things then
      var id := its[s.position - 1].thingId;
      var th := t.things[id];
      Some(CurrentItem(s.position, id, th.author, th.kind, th.weight,
                       if th.status == Told then Some(th.text) else None, th.status))
    else None
  }

  datatype VoteCounts = VoteCounts(totalMembers: nat, yesVotes: nat, noVotes: nat)
  datatype Progress = Progress(currentPosition: nat, totalPositions: nat)
  datatype Closure = Closure(itemsTold: nat)
  datatype Snapshot = Snapshot(session: SessionView, voting: VoteCounts, progress: Progress,
                               current: Option<CurrentItem>, closure: Option<Closure>)

  /** getBroadcastSnapshot: the state of the group's latest session, or None
      (`{ session: null }`) when the group never had one. */
  function BroadcastSnapshot(t: Tables, g: GroupId): Option<Snapshot>
  {
    match LatestSession(t.sessions, g)
    case None => None
    case Some(sid) =>
      var s := t.sessions[sid];
      Some(Snapshot(
        Normalize(t.sessions, sid),
        VoteCounts(MemberCount(t, g), |Voters(t.votes, sid, Yes)|, |Voters(t.votes, sid, No)|),
        Progress(s.position, |ItemsOf(t, sid)|),
        if s.status == Active || s.status == Paused then CurrentItemOf(t, sid) else None,
        if s.status == Completed then Some(Closure(|ItemsOf(t, sid)|)) else None))
  }

  datatype CurrentReply = CurrentReply(session: Option<SessionView>, current: Option<CurrentItem>)

  /** ritualCurrent: the open session and its current item, for a member. */
  function RitualCurrent(t: Tables, g: GroupId, u: UserId): Result<CurrentReply>
  {
    if !IsMember(t, g, u) then Err(NotMember)
    else match OpenSession(t.sessions, g)
      case None => Ok(CurrentReply(None, None))
      case Some(sid) =>
        if t.sessions[sid].status == Voting then Ok(CurrentReply(Some(Normalize(t.sessions, sid)), None))
        else Ok(CurrentReply(Some(Normalize(t.sessions, sid)), CurrentItemOf(t, sid)))
  }

  // ---------------------------------------------------------------------
  // Invariants of reachable tables

  /** Only the latest session of a group may be open; in particular a group
      has at most one open session. */
  predicate OpenIsLatest(sessions: seq<Session>)
  {
    forall i, j :: 0 <= i < j < |sessions| && sessions[i].groupId == sessions[j].groupId ==>
      !IsOpen(sessions[i])
  }

  /** The items of a session against its status: none, and the cursor at
      its initial value, while voting; while
      active or paused the cursor is on an existing position and exactly the
      positions before it are told; once completed every position is told. */
  predicate ItemsFit(s: Session, its: seq<SessionItem>)
  {
    match s.status
    case Voting => its == [] && s.position == INITIAL_POSITION
    case Active | Paused =>
      1 <= s.position <= |its| && forall k :: 0 <= k < |its| ==> (its[k].told <==> k < s.position - 1)
    case Completed => forall k :: 0 <= k < |its| ==> its[k].told
  }

  predicate Wf(t: Tables)
  {
    && OpenIsLatest(t.sessions)
    && (forall sid :: sid in t.items ==> sid < |t.sessions|)
    && (forall sid :: 0 <= sid < |t.sessions| ==> ItemsFit(t.sessions[sid], ItemsOf(t, sid)))
    && (forall id :: id in t.things ==> id < t.nextThingId)
  }
}
