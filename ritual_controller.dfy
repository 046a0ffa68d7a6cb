/** The ritual controller's request handlers, each the body of one
    transaction over the database, proved to take the tables exactly where
    the functions of RitualSpec say. */
module RitualController {
  import opened Schema
  import opened RitualSpec
  import Shuffle

  method StartVote(db: Database, g: GroupId, u: UserId) returns (r: Result<StartReply>)
    modifies db
    ensures Step(db.State(), r) == RitualSpec.StartVote(old(db.State()), g, u)
  {
    if (g, u) !in db.members {
      return Err(NotMember);
    }
    var open := OpenSession(db.sessions, g);
    if open.Some? {
      return Ok(Existing(Normalize(db.sessions, open.value)));
    }
    db.sessions := db.sessions + [Session(g, Voting, INITIAL_POSITION)];
    r := Ok(Created(Normalize(db.sessions, |db.sessions| - 1)));
  }

  method CastVote(db: Database, g: GroupId, u: UserId, vote: string, draws: seq<nat>)
    returns (r: Result<VoteReply>)
    modifies db
    ensures Step(db.State(), r) == RitualSpec.CastVoteRequest(old(db.State()), g, u, vote, draws)
  {
    var parsed := ParseVote(vote);
    if parsed.None? {
      return Err(InvalidInput);
    }
    var v := parsed.value;
    if (g, u) !in db.members {
      return Err(NotMember);
    }
    var open := OpenSession(db.sessions, g);
    if open.None? {
      return Err(NoOpenSession);
    }
    var sid := open.value;
    if db.sessions[sid].status != Voting {
      return Err(VotingNotOpen);
    }
    db.votes := db.votes[(sid, u) := v];
    r := TallyVotes(db, g, sid, u, v, draws);
  }

  /** castVote after the upsert of the vote: count, and activate on a
      strict majority. */
  method TallyVotes(db: Database, g: GroupId, sid: SessionId, u: UserId, v: VoteChoice, draws: seq<nat>)
    returns (r: Result<VoteReply>)
    requires sid < |db.sessions|
    modifies db
    ensures Step(db.State(), r) == RitualSpec.Tally(old(db.State()), g, sid, u, v, draws)
  {
    var total := MemberCount(db.State(), g);
    var yes := |Voters(db.votes, sid, Yes)|;
    if 2 * yes <= total {
      return Ok(ComputeState(db.State(), sid, total, u));
    }
    r := Activate(db, g, sid, VotingView(total, yes, total - yes, Some(v)), draws);
  }

  /** The activation step of castVote: the status flip, the shuffle, and the
      item rows, or the immediate close when nothing is pending. */
  method Activate(db: Database, g: GroupId, sid: SessionId, voting: VotingView, draws: seq<nat>)
    returns (r: Result<VoteReply>)
    requires sid < |db.sessions|
    modifies db
    ensures Step(db.State(), r) == RitualSpec.Activate(old(db.State()), g, sid, voting, draws)
  {
    ghost var t0 := db.State();
    var pending := PendingIds(db.State(), g);
    db.sessions := db.sessions[sid := db.sessions[sid].(status := Active)];
    var ids := new ThingId[|pending|](k requires 0 <= k < |pending| => pending[k]);
    assert ids[..] == pending;
    Shuffle.ShuffleInPlace(ids, draws);
    var order := ids[..];
    if |order| == 0 {
      db.sessions := db.sessions[sid := db.sessions[sid].(status := Completed)];
      return Ok(ClosedEmpty(Normalize(db.sessions, sid), voting, 0));
    }
    InsertItems(db, sid, order);
    r := Ok(Activated(Normalize(db.sessions, sid)));
  }

  /** The `for` loop of castVote that inserts one ritual_session_items row per
      position: position i + 1 holds order[i]. */
  method InsertItems(db: Database, sid: SessionId, order: seq<ThingId>)
    requires |order| > 0
    modifies db`items
    ensures db.items == old(db.items)[sid := ItemsIn(old(db.items), sid) + NewItems(order)]
  {
    ghost var items0 := db.items;
    ghost var before := ItemsIn(items0, sid);
    for i := 0 to |order|
      invariant i == 0 ==> db.items == items0
      invariant i > 0 ==> sid in db.items
      invariant ItemsIn(db.items, sid) == before + NewItems(order[..i])
      invariant forall k :: k != sid ==> (k in db.items <==> k in items0)
      invariant forall k :: k != sid && k in items0 ==> db.items[k] == items0[k]
    {
      ghost var done := order[..i];
      assert order[..i + 1] == done + [order[i]];
      NewItemsSnoc(done, order[i]);
      db.items := db.items[sid := ItemsIn(db.items, sid) + [SessionItem(order[i], false)]];
    }
    assert order[..|order|] == order;
  }

  method TellCurrent(db: Database, g: GroupId, u: UserId) returns (r: Result<TellReply>)
    modifies db
    ensures Step(db.State(), r) == RitualSpec.TellCurrent(old(db.State()), g, u)
  {
    if (g, u) !in db.members {
      return Err(NotMember);
    }
    var open := OpenSession(db.sessions, g);
    if open.None? {
      return Err(NoOpenSession);
    }
    var sid := open.value;
    var s := db.sessions[sid];
    if s.status != Active {
      return Err(RitualNotActive);
    }
    var its := ItemsIn(db.items, sid);
    if !(1 <= s.position <= |its|) || its[s.position - 1].thingId !in db.things {
      return Err(NoCurrentItem);
    }
    var id := its[s.position - 1].thingId;
    var thing := db.things[id];
    if thing.status != Pending {
      return Err(CurrentItemAlreadyTold);
    }

    db.things := db.things[id := thing.(status := Told)];
    db.items := db.items[sid := its[s.position - 1 := its[s.position - 1].(told := true)]];

    var maxPos := |its|;
    var nextPosition := s.position + 1;
    if nextPosition > maxPos {
      db.sessions := db.sessions[sid := s.(status := Completed)];
      var itemsTold := CountTold(db.items[sid]);
      return Ok(TellReply(thing.text, true, Some(itemsTold)));
    }
    db.sessions := db.sessions[sid := s.(position := nextPosition)];
    r := Ok(TellReply(thing.text, false, None));
  }

  method PauseRitual(db: Database, g: GroupId, u: UserId) returns (r: Result<SessionView>)
    modifies db
    ensures Step(db.State(), r) == Pause(old(db.State()), g, u)
  {
    if (g, u) !in db.members {
      return Err(NotMember);
    }
    var open := OpenSession(db.sessions, g);
    if open.None? {
      return Err(NoOpenSession);
    }
    var sid := open.value;
    if db.sessions[sid].status != Active {
      return Err(NotActive);
    }
    db.sessions := db.sessions[sid := db.sessions[sid].(status := Paused)];
    r := Ok(Normalize(db.sessions, sid));
  }

  method ResumeRitual(db: Database, g: GroupId, u: UserId) returns (r: Result<SessionView>)
    modifies db
    ensures Step(db.State(), r) == Resume(old(db.State()), g, u)
  {
    if (g, u) !in db.members {
      return Err(NotMember);
    }
    var open := OpenSession(db.sessions, g);
    if open.None? {
      return Err(NoOpenSession);
    }
    var sid := open.value;
    if db.sessions[sid].status != Paused {
      return Err(NotPaused);
    }
    db.sessions := db.sessions[sid := db.sessions[sid].(status := Active)];
    r := Ok(Normalize(db.sessions, sid));
  }
}
