/** What the ritual controller promises, proved about the functions of
    RitualSpec: the open-session invariant, the vote threshold, the captured
    order, sequential reveal, pause and resume, and redaction. */
module RitualProofs {
  import opened Schema
  import opened RitualSpec
  import Shuffle

  // ---------------------------------------------------------------------
  // Helpers about finding sessions

  /** Two session tables that agree, index by index, on which sessions are
      open in group `g` have the same open session for `g`. */
  lemma OpenSessionSameShape(a: seq<Session>, b: seq<Session>, g: GroupId)
    requires |a| == |b|
    requires forall i :: 0 <= i < |a| ==> (OpenIn(a[i], g) <==> OpenIn(b[i], g))
    ensures OpenSession(a, g) == OpenSession(b, g)
  {
    var ra, rb := OpenSession(a, g), OpenSession(b, g);
    if ra.Some? {
      assert OpenIn(b[ra.value], g);
    }
    if rb.Some? {
      assert OpenIn(a[rb.value], g);
    }
  }

  /** When only the latest session of a group can be open, the open session,
      if any, is the latest session. */
  lemma OpenIsLatestSession(sessions: seq<Session>, g: GroupId)
    requires OpenIsLatest(sessions)
    requires OpenSession(sessions, g).Some?
    ensures LatestSession(sessions, g) == OpenSession(sessions, g)
  {
    var o := OpenSession(sessions, g).value;
    var l := LatestSession(sessions, g).value;
    assert sessions[o].groupId == sessions[l].groupId;
  }

  /** Under the invariant a group never has two open sessions. */
  lemma AtMostOneOpen(t: Tables, i: SessionId, j: SessionId, g: GroupId)
    requires Wf(t)
    requires i < |t.sessions| && j < |t.sessions|
    requires OpenIn(t.sessions[i], g) && OpenIn(t.sessions[j], g)
    ensures i == j
  {
    assert t.sessions[i].groupId == t.sessions[j].groupId;
  }

  // ---------------------------------------------------------------------
  // Membership

  /** Every ritual operation refuses a non-member with 403 and changes
      nothing. */
  lemma NonMemberRefused(t: Tables, g: GroupId, u: UserId, v: VoteChoice, draws: seq<nat>)
    requires !IsMember(t, g, u)
    ensures StartVote(t, g, u) == Step(t, Err(NotMember))
    ensures CastVote(t, g, u, v, draws) == Step(t, Err(NotMember))
    ensures TellCurrent(t, g, u) == Step(t, Err(NotMember))
    ensures Pause(t, g, u) == Step(t, Err(NotMember))
    ensures Resume(t, g, u) == Step(t, Err(NotMember))
    ensures RitualCurrent(t, g, u) == Err(NotMember)
    ensures HttpStatus(NotMember) == 403
  {
  }

  // ---------------------------------------------------------------------
  // startVote

  /** startVote returns the open session unchanged when there is one, and
      otherwise inserts exactly one new session, in `voting`, at the initial
      position, touching no other table. */
  lemma StartVoteEffect(t: Tables, g: GroupId, u: UserId)
    requires IsMember(t, g, u)
    ensures var st := StartVote(t, g, u);
      match OpenSession(t.sessions, g)
      case Some(sid) => st == Step(t, Ok(Existing(Normalize(t.sessions, sid))))
      case None =>
        && st.next == t.(sessions := t.sessions + [Session(g, Voting, INITIAL_POSITION)])
        && st.reply == Ok(Created(SessionView(|t.sessions|, g, Voting, INITIAL_POSITION)))
  {
  }

  /** Calling startVote twice in a row returns the same session, and the
      second call changes nothing. */
  lemma StartVoteIdempotent(t: Tables, g: GroupId, u: UserId)
    requires IsMember(t, g, u)
    ensures var first := StartVote(t, g, u);
      var second := StartVote(first.next, g, u);
      && first.reply.Ok? && second.reply.Ok?
      && second.reply.value.session.id == first.reply.value.session.id
      && second.next == first.next
      && second.reply == Ok(Existing(first.reply.value.session))
  {
    var first := StartVote(t, g, u);
    match OpenSession(t.sessions, g)
    case Some(sid) =>
    case None =>
      var s' := first.next.sessions;
      assert OpenIn(s'[|s'| - 1], g);
      assert OpenSession(s', g) == Some(|t.sessions|);
  }

  /** startVote keeps the invariant, so it never opens a second session for
      a group. */
  lemma StartVoteKeepsWf(t: Tables, g: GroupId, u: UserId)
    requires Wf(t)
    ensures Wf(StartVote(t, g, u).next)
  {
    var t' := StartVote(t, g, u).next;
    if IsMember(t, g, u) && OpenSession(t.sessions, g).None? {
      var n := |t.sessions|;
      forall i, j | 0 <= i < j < |t'.sessions| && t'.sessions[i].groupId == t'.sessions[j].groupId
        ensures !IsOpen(t'.sessions[i])
      {
        if j == n {
          assert !OpenIn(t.sessions[i], g);
        }
      }
      forall sid | 0 <= sid < |t'.sessions|
        ensures ItemsFit(t'.sessions[sid], ItemsOf(t', sid))
      {
        if sid == n {
          assert sid !in t.items;
        } else {
          assert t'.sessions[sid] == t.sessions[sid];
        }
      }
    }
  }

  // ---------------------------------------------------------------------
  // castVote

  /** castVote's body is checked before anything else: a vote other than
      "yes" or "no" gets InvalidInput (400) with no change, even from a
      non-member, and a well-formed vote is then cast as parsed. */
  lemma VoteParsedFirst(t: Tables, g: GroupId, u: UserId, vote: string, draws: seq<nat>)
    ensures vote != "yes" && vote != "no" ==>
      CastVoteRequest(t, g, u, vote, draws) == Step(t, Err(InvalidInput))
    ensures vote == "yes" ==> CastVoteRequest(t, g, u, vote, draws) == CastVote(t, g, u, Yes, draws)
    ensures vote == "no" ==> CastVoteRequest(t, g, u, vote, draws) == CastVote(t, g, u, No, draws)
    ensures HttpStatus(InvalidInput) == 400
  {
  }

  /** castVote without an open session, or with an open session that is no
      longer voting, is refused and changes nothing. */
  lemma CastVoteRefusals(t: Tables, g: GroupId, u: UserId, v: VoteChoice, draws: seq<nat>)
    requires IsMember(t, g, u)
    ensures OpenSession(t.sessions, g).None? ==>
      CastVote(t, g, u, v, draws) == Step(t, Err(NoOpenSession))
    ensures OpenSession(t.sessions, g).Some? && t.sessions[OpenSession(t.sessions, g).value].status != Voting ==>
      CastVote(t, g, u, v, draws) == Step(t, Err(VotingNotOpen))
  {
  }

  /** Voting again replaces the caller's earlier vote: the caller is a yes
      voter afterwards exactly when the new vote is yes, and every other
      user's vote is as before. */
  lemma RevoteReplaces(votes: map<(SessionId, UserId), VoteChoice>, sid: SessionId, u: UserId, v: VoteChoice)
    ensures Voters(votes[(sid, u) := v], sid, Yes)
         == (Voters(votes, sid, Yes) - {u}) + (if v == Yes then {u} else {})
    ensures Voters(votes[(sid, u) := v], sid, No)
         == (Voters(votes, sid, No) - {u}) + (if v == No then {u} else {})
  {
    var votes' := votes[(sid, u) := v];
    forall c: VoteChoice
      ensures Voters(votes', sid, c) == (Voters(votes, sid, c) - {u}) + (if v == c then {u} else {})
    {
      forall x | x in Voters(votes', sid, c)
        ensures x in (Voters(votes, sid, c) - {u}) + (if v == c then {u} else {})
      {
        var k :| k in votes' && k.0 == sid && votes'[k] == c && k.1 == x;
        if x != u {
          assert k in votes && votes[k] == c;
        }
      }
      forall x | x in (Voters(votes, sid, c) - {u}) + (if v == c then {u} else {})
        ensures x in Voters(votes', sid, c)
      {
        if x == u {
          assert (sid, u) in votes' && votes'[(sid, u)] == c;
        } else {
          var k :| k in votes && k.0 == sid && votes[k] == c && k.1 == x;
          assert k in votes' && votes'[k] == c;
        }
      }
    }
  }

  /** A user never holds both a yes and a no vote in the same session, so
      the two tallies never count anyone twice. */
  lemma VotersDisjoint(votes: map<(SessionId, UserId), VoteChoice>, sid: SessionId)
    ensures Voters(votes, sid, Yes) !! Voters(votes, sid, No)
  {
    forall x | x in Voters(votes, sid, Yes)
      ensures x !in Voters(votes, sid, No)
    {
      var k :| k in votes && k.0 == sid && votes[k] == Yes && k.1 == x;
      assert k == (sid, x);
    }
  }

  /** Past its guards, castVote records the vote and then tallies. */
  lemma CastVoteRecords(t: Tables, g: GroupId, u: UserId, v: VoteChoice, draws: seq<nat>)
    requires IsMember(t, g, u)
    requires OpenSession(t.sessions, g).Some?
    requires t.sessions[OpenSession(t.sessions, g).value].status == Voting
    ensures var sid := OpenSession(t.sessions, g).value;
      CastVote(t, g, u, v, draws) == Tally(t.(votes := t.votes[(sid, u) := v]), g, sid, u, v, draws)
  {
  }

  /** Activation moves the session to `active`, or to `completed` when the
      group has nothing pending, and fills in its items; no other session,
      no thing and no vote changes. */
  lemma ActivateEffect(t: Tables, g: GroupId, sid: SessionId, voting: VotingView, draws: seq<nat>)
    requires sid < |t.sessions|
    ensures var st := Activate(t, g, sid, voting, draws);
      var order := Shuffle.Shuffled(PendingIds(t, g), draws);
      && |order| == |PendingIds(t, g)|
      && st.reply.Ok?
      && st.next.things == t.things && st.next.votes == t.votes
      && st.next.sessions == t.sessions[sid := t.sessions[sid].(status := if |order| == 0 then Completed else Active)]
      && st.next.items == (if |order| == 0 then t.items else t.items[sid := ItemsOf(t, sid) + NewItems(order)])
      && (|order| == 0 ==> st.reply.value == ClosedEmpty(Normalize(st.next.sessions, sid), voting, 0))
  {
    var order := Shuffle.Shuffled(PendingIds(t, g), draws);
    Shuffle.ShufflePermutes(PendingIds(t, g), draws);
    var st := Activate(t, g, sid, voting, draws);
    if |order| == 0 {
      assert st.next == t.(sessions := t.sessions[sid := t.sessions[sid].(status := Completed)]);
    } else {
      assert st.next == t.(sessions := t.sessions[sid := t.sessions[sid].(status := Active)],
                           items := t.items[sid := ItemsOf(t, sid) + NewItems(order)]);
    }
  }

  /** The tally leaves the session in `voting` exactly when the yes votes
      are at most half the members; otherwise it activates. */
  lemma TallyEffect(t: Tables, g: GroupId, sid: SessionId, u: UserId, v: VoteChoice, draws: seq<nat>)
    requires sid < |t.sessions|
    ensures var st := Tally(t, g, sid, u, v, draws);
      var yes := |Voters(t.votes, sid, Yes)|;
      var total := MemberCount(t, g);
      && (2 * yes <= total ==> st == Step(t, Ok(ComputeState(t, sid, total, u))))
      && (2 * yes > total ==> st == Activate(t, g, sid, VotingView(total, yes, total - yes, Some(v)), draws))
  {
  }

  /** The activation rule: after a recorded vote the session stays in
      `voting` exactly when the yes votes are at most half the members, and
      otherwise becomes active, or completed when nothing is pending. */
  lemma ActivationThreshold(t: Tables, g: GroupId, u: UserId, v: VoteChoice, draws: seq<nat>)
    requires IsMember(t, g, u)
    requires OpenSession(t.sessions, g).Some?
    requires t.sessions[OpenSession(t.sessions, g).value].status == Voting
    ensures var sid := OpenSession(t.sessions, g).value;
      var st := CastVote(t, g, u, v, draws);
      var yes := |Voters(t.votes[(sid, u) := v], sid, Yes)|;
      && st.reply.Ok?
      && st.next.votes == t.votes[(sid, u) := v]
      && st.next.things == t.things
      && |st.next.sessions| == |t.sessions|
      && (st.next.sessions[sid].status == Voting <==> 2 * yes <= MemberCount(t, g))
      && (st.next.sessions[sid].status == Active <==>
            2 * yes > MemberCount(t, g) && |PendingIds(t, g)| > 0)
      && (st.next.sessions[sid].status == Completed <==>
            2 * yes > MemberCount(t, g) && |PendingIds(t, g)| == 0)
  {
    var sid := OpenSession(t.sessions, g).value;
    var t1 := t.(votes := t.votes[(sid, u) := v]);
    CastVoteRecords(t, g, u, v, draws);
    TallyEffect(t1, g, sid, u, v, draws);
    var yes := |Voters(t1.votes, sid, Yes)|;
    assert MemberCount(t1, g) == MemberCount(t, g);
    assert PendingIds(t1, g) == PendingIds(t, g);
    ActivateEffect(t1, g, sid, VotingView(MemberCount(t, g), yes, MemberCount(t, g) - yes, Some(v)), draws);
  }

  /** `yes <= total / 2`, evaluated on numbers as the source does, is the
      same test as `2 * yes <= total`: a strict majority activates, a tie
      does not. */
  lemma MajorityRule(yes: nat, total: nat)
    ensures (yes as real <= total as real / 2.0) <==> 2 * yes <= total
  {
  }

  /** With every thing id below the id counter, the pending ids are
      exactly the group's pending things, each once. */
  lemma PendingIdsExact(t: Tables, g: GroupId)
    requires forall id :: id in t.things ==> id < t.nextThingId
    ensures forall id :: id in PendingIds(t, g) <==> IsPendingIn(t.things, g, id)
    ensures forall i, j :: 0 <= i < j < |PendingIds(t, g)| ==> PendingIds(t, g)[i] != PendingIds(t, g)[j]
  {
  }

  lemma SameMembers<T>(a: seq<T>, b: seq<T>)
    requires multiset(a) == multiset(b)
    ensures forall x :: x in a <==> x in b
  {
    forall x
      ensures x in a <==> x in b
    {
      assert x in a <==> x in multiset(a);
      assert x in b <==> x in multiset(b);
    }
  }

  /** The shuffled pending ids are the group's pending things, each once. */
  lemma ShuffledPending(t: Tables, g: GroupId, draws: seq<nat>)
    requires forall id :: id in t.things ==> id < t.nextThingId
    ensures var order := Shuffle.Shuffled(PendingIds(t, g), draws);
      && multiset(order) == multiset(PendingIds(t, g))
      && (forall id :: id in order <==> IsPendingIn(t.things, g, id))
      && (forall i, j :: 0 <= i < j < |order| ==> order[i] != order[j])
  {
    var pending := PendingIds(t, g);
    var order := Shuffle.Shuffled(pending, draws);
    Shuffle.ShufflePermutes(pending, draws);
    PendingIdsExact(t, g);
    Shuffle.PermutationKeepsDistinct(pending, order);
    SameMembers(order, pending);
  }

  /** Over a session that had no items, activation leaves exactly the
      shuffled ids as items, none told. */
  lemma ActivatedOrder(t: Tables, g: GroupId, sid: SessionId, voting: VotingView, draws: seq<nat>)
    requires sid < |t.sessions|
    requires ItemsOf(t, sid) == []
    ensures var its := ItemsOf(Activate(t, g, sid, voting, draws).next, sid);
      && ThingIds(its) == Shuffle.Shuffled(PendingIds(t, g), draws)
      && (forall k :: 0 <= k < |its| ==> !its[k].told)
  {
    var order := Shuffle.Shuffled(PendingIds(t, g), draws);
    var next := Activate(t, g, sid, voting, draws).next;
    ActivateEffect(t, g, sid, voting, draws);
    var its := ItemsOf(next, sid);
    if |order| == 0 {
      assert its == [];
    } else {
      assert its == NewItems(order);
    }
    assert ThingIds(its) == order;
  }

  /** The items written by an activation over a session that had none hold
      the shuffled pending ids, each exactly once, in order, all untold. */
  lemma ActivatedItems(t: Tables, g: GroupId, sid: SessionId, voting: VotingView, draws: seq<nat>)
    requires sid < |t.sessions|
    requires ItemsOf(t, sid) == []
    requires forall id :: id in t.things ==> id < t.nextThingId
    ensures var its := ItemsOf(Activate(t, g, sid, voting, draws).next, sid);
      && multiset(ThingIds(its)) == multiset(PendingIds(t, g))
      && (forall id :: id in ThingIds(its) <==> IsPendingIn(t.things, g, id))
      && (forall i, j :: 0 <= i < j < |its| ==> its[i].thingId != its[j].thingId)
      && (forall k :: 0 <= k < |its| ==> !its[k].told)
  {
    ActivatedOrder(t, g, sid, voting, draws);
    ShuffledPending(t, g, draws);
    var its := ItemsOf(Activate(t, g, sid, voting, draws).next, sid);
    var ids := ThingIds(its);
    forall i, j | 0 <= i < j < |its|
      ensures its[i].thingId != its[j].thingId
    {
      assert ids[i] != ids[j];
    }
  }

  /** On activation the session's positions 1..N hold the group's pending
      things, each exactly once, in the shuffled order, all untold; with
      nothing pending the session closes at once with no items. */
  lemma ActivationCapturesPending(t: Tables, g: GroupId, u: UserId, v: VoteChoice, draws: seq<nat>)
    requires Wf(t)
    requires IsMember(t, g, u)
    requires OpenSession(t.sessions, g).Some?
    requires t.sessions[OpenSession(t.sessions, g).value].status == Voting
    requires 2 * |Voters(t.votes[(OpenSession(t.sessions, g).value, u) := v],
                         OpenSession(t.sessions, g).value, Yes)| > MemberCount(t, g)
    ensures var sid := OpenSession(t.sessions, g).value;
      var st := CastVote(t, g, u, v, draws);
      var its := ItemsOf(st.next, sid);
      && st.next.things == t.things
      && multiset(ThingIds(its)) == multiset(PendingIds(t, g))
      && (forall id :: id in ThingIds(its) <==> IsPendingIn(t.things, g, id))
      && (forall i, j :: 0 <= i < j < |its| ==> its[i].thingId != its[j].thingId)
      && (forall k :: 0 <= k < |its| ==> !its[k].told)
      && (|its| == 0 <==> st.next.sessions[sid].status == Completed)
      && (|its| == 0 ==> st.reply.Ok? && st.reply.value.ClosedEmpty? && st.reply.value.itemsTold == 0)
  {
    var sid := OpenSession(t.sessions, g).value;
    var t1 := t.(votes := t.votes[(sid, u) := v]);
    var yes := |Voters(t1.votes, sid, Yes)|;
    var voting := VotingView(MemberCount(t1, g), yes, MemberCount(t1, g) - yes, Some(v));
    assert ItemsFit(t.sessions[sid], ItemsOf(t, sid));
    CastVoteRecords(t, g, u, v, draws);
    TallyEffect(t1, g, sid, u, v, draws);
    ActivateEffect(t1, g, sid, voting, draws);
    ActivatedItems(t1, g, sid, voting, draws);
  }

  /** castVote keeps the invariant. */
  lemma CastVoteKeepsWf(t: Tables, g: GroupId, u: UserId, v: VoteChoice, draws: seq<nat>)
    requires Wf(t)
    ensures Wf(CastVote(t, g, u, v, draws).next)
  {
    if IsMember(t, g, u) && OpenSession(t.sessions, g).Some?
       && t.sessions[OpenSession(t.sessions, g).value].status == Voting {
      var sid := OpenSession(t.sessions, g).value;
      var t1 := t.(votes := t.votes[(sid, u) := v]);
      var yes := |Voters(t1.votes, sid, Yes)|;
      var voting := VotingView(MemberCount(t1, g), yes, MemberCount(t1, g) - yes, Some(v));
      assert ItemsFit(t.sessions[sid], ItemsOf(t, sid));
      CastVoteRecords(t, g, u, v, draws);
      TallyEffect(t1, g, sid, u, v, draws);
      if 2 * yes > MemberCount(t1, g) {
        ActivateEffect(t1, g, sid, voting, draws);
        ActivateKeepsWf(t1, g, sid, voting, draws);
      }
    }
  }

  /** Activating an open voting session with no items keeps the invariant. */
  lemma ActivateKeepsWf(t: Tables, g: GroupId, sid: SessionId, voting: VotingView, draws: seq<nat>)
    requires Wf(t)
    requires sid < |t.sessions| && t.sessions[sid].status == Voting
    ensures Wf(Activate(t, g, sid, voting, draws).next)
  {
    var t' := Activate(t, g, sid, voting, draws).next;
    ActivateEffect(t, g, sid, voting, draws);
    assert ItemsFit(t.sessions[sid], ItemsOf(t, sid));
    forall i, j | 0 <= i < j < |t'.sessions| && t'.sessions[i].groupId == t'.sessions[j].groupId
      ensures !IsOpen(t'.sessions[i])
    {
      assert t.sessions[i].groupId == t.sessions[j].groupId;
    }
    forall k | 0 <= k < |t'.sessions|
      ensures ItemsFit(t'.sessions[k], ItemsOf(t', k))
    {
      if k != sid {
        assert t'.sessions[k] == t.sessions[k];
        assert ItemsOf(t', k) == ItemsOf(t, k);
      }
    }
  }

  // ---------------------------------------------------------------------
  // tellCurrent

  /** tellCurrent refuses, changing nothing, unless the open session is
      active and its current position holds a pending thing; in that case
      it succeeds, reveals that thing's text, and reports completion exactly
      on the last position. */
  lemma TellRefusals(t: Tables, g: GroupId, u: UserId)
    requires IsMember(t, g, u)
    ensures OpenSession(t.sessions, g).None? ==> TellCurrent(t, g, u) == Step(t, Err(NoOpenSession))
    ensures OpenSession(t.sessions, g).Some? ==>
      var sid := OpenSession(t.sessions, g).value;
      var s := t.sessions[sid];
      var its := ItemsOf(t, sid);
      && (s.status != Active ==> TellCurrent(t, g, u) == Step(t, Err(RitualNotActive)))
      && (s.status == Active && !(1 <= s.position <= |its|) ==>
            TellCurrent(t, g, u) == Step(t, Err(NoCurrentItem)))
      && (s.status == Active && 1 <= s.position <= |its| && its[s.position - 1].thingId !in t.things ==>
            TellCurrent(t, g, u) == Step(t, Err(NoCurrentItem)))
      && (s.status == Active && 1 <= s.position <= |its| && its[s.position - 1].thingId in t.things
          && t.things[its[s.position - 1].thingId].status == Told ==>
            TellCurrent(t, g, u) == Step(t, Err(CurrentItemAlreadyTold)))
      && (s.status == Active && 1 <= s.position <= |its| && its[s.position - 1].thingId in t.things
          && t.things[its[s.position - 1].thingId].status == Pending ==>
            var st := TellCurrent(t, g, u);
            && st.reply.Ok?
            && st.reply.value.revealedText == t.things[its[s.position - 1].thingId].text
            && (st.reply.value.completed <==> s.position == |its|))
  {
  }

  /** A successful tell marks exactly the current thing told, and the
      item at the current position told, and returns the thing's text; it
      then advances the cursor by exactly one, or, when the cursor was on
      the last position, completes the session and leaves the cursor where
      it was. Every other item, session and table is untouched. */
  lemma TellAdvances(t: Tables, g: GroupId, u: UserId)
    requires TellCurrent(t, g, u).reply.Ok?
    ensures IsMember(t, g, u) && OpenSession(t.sessions, g).Some?
    ensures var sid := OpenSession(t.sessions, g).value;
      var s := t.sessions[sid];
      var its := ItemsOf(t, sid);
      var st := TellCurrent(t, g, u);
      && s.status == Active
      && 1 <= s.position <= |its|
      && var id := its[s.position - 1].thingId;
      && id in t.things && t.things[id].status == Pending
      && st.next.things == t.things[id := t.things[id].(status := Told)]
      && st.reply.value.revealedText == t.things[id].text
      && |ItemsOf(st.next, sid)| == |its|
      && ItemsOf(st.next, sid)[s.position - 1] == its[s.position - 1].(told := true)
      && (forall k :: 0 <= k < |its| && k != s.position - 1 ==> ItemsOf(st.next, sid)[k] == its[k])
      && (forall o :: o != sid ==> ItemsOf(st.next, o) == ItemsOf(t, o))
      && st.next.(things := t.things, sessions := t.sessions, items := t.items) == t
      && |st.next.sessions| == |t.sessions|
      && (forall k :: 0 <= k < |t.sessions| && k != sid ==> st.next.sessions[k] == t.sessions[k])
      && (s.position < |its| ==>
            st.next.sessions[sid] == s.(position := s.position + 1) && !st.reply.value.completed)
      && (s.position == |its| ==>
            st.next.sessions[sid] == s.(status := Completed) && st.reply.value.completed)
  {
  }

  /** The number of told items of a sequence in which every item is told
      is its length. */
  lemma {:induction false} CountToldAll(its: seq<SessionItem>)
    requires forall k :: 0 <= k < |its| ==> its[k].told
    ensures CountTold(its) == |its|
  {
    if |its| > 0 {
      CountToldAll(its[..|its| - 1]);
    }
  }

  /** In a well-formed state the tell that completes a session reports
      every position of the session as told. */
  lemma CompletionCountsAllItems(t: Tables, g: GroupId, u: UserId)
    requires Wf(t)
    requires TellCurrent(t, g, u).reply.Ok?
    requires TellCurrent(t, g, u).reply.value.completed
    ensures var sid := OpenSession(t.sessions, g).value;
      TellCurrent(t, g, u).reply.value.itemsTold == Some(|ItemsOf(t, sid)|)
  {
    var sid := OpenSession(t.sessions, g).value;
    var s := t.sessions[sid];
    var its := ItemsOf(t, sid);
    assert ItemsFit(s, its);
    var its' := its[s.position - 1 := its[s.position - 1].(told := true)];
    CountToldAll(its');
  }

  /** tellCurrent keeps the invariant. */
  lemma TellKeepsWf(t: Tables, g: GroupId, u: UserId)
    requires Wf(t)
    ensures Wf(TellCurrent(t, g, u).next)
  {
    var st := TellCurrent(t, g, u);
    if st.reply.Ok? {
      var t' := st.next;
      var sid := OpenSession(t.sessions, g).value;
      var s := t.sessions[sid];
      assert ItemsFit(s, ItemsOf(t, sid));
      forall i, j | 0 <= i < j < |t'.sessions| && t'.sessions[i].groupId == t'.sessions[j].groupId
        ensures !IsOpen(t'.sessions[i])
      {
        assert t.sessions[i].groupId == t.sessions[j].groupId;
      }
      forall k | 0 <= k < |t'.sessions|
        ensures ItemsFit(t'.sessions[k], ItemsOf(t', k))
      {
        if k != sid {
          assert t'.sessions[k] == t.sessions[k];
          assert ItemsOf(t', k) == ItemsOf(t, k);
        }
      }
    }
  }

  // ---------------------------------------------------------------------
  // pause and resume

  /** Pause succeeds only on an active session and resume only on a paused
      one; each changes that session's status and nothing else. */
  lemma PauseResumeEffect(t: Tables, g: GroupId, u: UserId)
    requires IsMember(t, g, u)
    ensures var o := OpenSession(t.sessions, g);
      && (Pause(t, g, u).reply.Ok? <==> o.Some? && t.sessions[o.value].status == Active)
      && (Resume(t, g, u).reply.Ok? <==> o.Some? && t.sessions[o.value].status == Paused)
      && (Pause(t, g, u).reply.Ok? ==>
            Pause(t, g, u).next == t.(sessions := t.sessions[o.value := t.sessions[o.value].(status := Paused)]))
      && (Resume(t, g, u).reply.Ok? ==>
            Resume(t, g, u).next == t.(sessions := t.sessions[o.value := t.sessions[o.value].(status := Active)]))
      && (Pause(t, g, u).reply.Err? ==> Pause(t, g, u).next == t)
      && (Resume(t, g, u).reply.Err? ==> Resume(t, g, u).next == t)
  {
  }

  /** Resuming right after a successful pause restores every table, the
      cursor included. */
  lemma PauseThenResume(t: Tables, g: GroupId, u: UserId)
    requires Pause(t, g, u).reply.Ok?
    ensures Resume(Pause(t, g, u).next, g, u).reply.Ok?
    ensures Resume(Pause(t, g, u).next, g, u).next == t
  {
    var sid := OpenSession(t.sessions, g).value;
    var p := Pause(t, g, u).next;
    OpenSessionSameShape(t.sessions, p.sessions, g);
    assert p.sessions[sid := p.sessions[sid].(status := Active)] == t.sessions;
  }

  /** Changing the status of an open session to another status its items
      fit keeps the invariant. */
  lemma RestatusKeepsWf(t: Tables, sid: SessionId, status: SessionStatus)
    requires Wf(t)
    requires sid < |t.sessions| && IsOpen(t.sessions[sid])
    requires ItemsFit(t.sessions[sid].(status := status), ItemsOf(t, sid))
    ensures Wf(t.(sessions := t.sessions[sid := t.sessions[sid].(status := status)]))
  {
    var t' := t.(sessions := t.sessions[sid := t.sessions[sid].(status := status)]);
    forall i, j | 0 <= i < j < |t'.sessions| && t'.sessions[i].groupId == t'.sessions[j].groupId
      ensures !IsOpen(t'.sessions[i])
    {
      assert t.sessions[i].groupId == t.sessions[j].groupId;
    }
    forall k | 0 <= k < |t'.sessions|
      ensures ItemsFit(t'.sessions[k], ItemsOf(t', k))
    {
      if k != sid {
        assert t'.sessions[k] == t.sessions[k];
      }
    }
  }

  /** Pause and resume keep the invariant. */
  lemma PauseResumeKeepWf(t: Tables, g: GroupId, u: UserId)
    requires Wf(t)
    ensures Wf(Pause(t, g, u).next)
    ensures Wf(Resume(t, g, u).next)
  {
    if IsMember(t, g, u) && OpenSession(t.sessions, g).Some? {
      var sid := OpenSession(t.sessions, g).value;
      assert ItemsFit(t.sessions[sid], ItemsOf(t, sid));
      if t.sessions[sid].status == Active {
        RestatusKeepsWf(t, sid, Paused);
      } else if t.sessions[sid].status == Paused {
        RestatusKeepsWf(t, sid, Active);
      }
    }
  }

  // ---------------------------------------------------------------------
  // Read-only views and redaction

  /** The current item's text is withheld while its thing is pending and is
      the thing's text once told, in the broadcast snapshot and in the
      current-item reply alike. */
  lemma Redaction(t: Tables, g: GroupId, u: UserId)
    ensures var snap := BroadcastSnapshot(t, g);
      snap.Some? && snap.value.current.Some? ==>
        var c := snap.value.current.value;
        && c.thingId in t.things
        && (c.text.Some? <==> t.things[c.thingId].status == Told)
        && (c.text.Some? ==> c.text.value == t.things[c.thingId].text)
    ensures var rc := RitualCurrent(t, g, u);
      rc.Ok? && rc.value.current.Some? ==>
        var c := rc.value.current.value;
        && c.thingId in t.things
        && (c.text.Some? <==> t.things[c.thingId].status == Told)
        && (c.text.Some? ==> c.text.value == t.things[c.thingId].text)
  {
  }

  /** In a well-formed state the on-demand current item and the broadcast
      snapshot show the same session and the same (equally redacted) current
      item, so no member sees text through one that the other withholds. */
  lemma SnapshotAgreesWithCurrent(t: Tables, g: GroupId, u: UserId)
    requires Wf(t)
    requires IsMember(t, g, u)
    requires OpenSession(t.sessions, g).Some?
    ensures var rc := RitualCurrent(t, g, u);
      var snap := BroadcastSnapshot(t, g);
      && rc.Ok? && snap.Some?
      && rc.value.session == Some(snap.value.session)
      && rc.value.current == snap.value.current
  {
    OpenIsLatestSession(t.sessions, g);
  }

  /** tellCurrent never turns a told thing back to pending, edits it or
      removes it. */
  lemma ToldStaysTold(t: Tables, g: GroupId, u: UserId, id: ThingId)
    requires id in t.things && t.things[id].status == Told
    ensures var n := TellCurrent(t, g, u).next; id in n.things && n.things[id] == t.things[id]
  {
    if TellCurrent(t, g, u).reply.Ok? {
      TellAdvances(t, g, u);
    }
  }
}
