/** What the group controller promises, proved about the functions of
    GroupSpec: the limits, the short-circuits of an invite, the
    case-insensitive email match, and the invariants every request keeps. */
module GroupProofs {
  import opened Schema
  import opened RitualSpec
  import opened GroupSpec

  // ---------------------------------------------------------------------
  // Counting members

  /** Adding one new membership row raises the two counts it touches by
      one and leaves every other count as it was. */
  lemma AddMemberCounts(t: Tables, g: GroupId, v: UserId)
    requires (g, v) !in t.members
    ensures var n := t.(members := t.members + {(g, v)});
      && GroupMembers(n, g) == GroupMembers(t, g) + {v}
      && MemberCount(n, g) == MemberCount(t, g) + 1
      && GroupCount(n, v) == GroupCount(t, v) + 1
      && (forall h :: h != g ==> MemberCount(n, h) == MemberCount(t, h))
      && (forall w :: w != v ==> GroupCount(n, w) == GroupCount(t, w))
  {
    var n := t.(members := t.members + {(g, v)});
    assert GroupMembers(n, g) == GroupMembers(t, g) + {v};
    assert v !in GroupMembers(t, g);
    assert GroupsOf(n, v) == GroupsOf(t, v) + {g};
    assert g !in GroupsOf(t, v);
    forall h | h != g
      ensures MemberCount(n, h) == MemberCount(t, h)
    {
      assert GroupMembers(n, h) == GroupMembers(t, h);
    }
    forall w | w != v
      ensures GroupCount(n, w) == GroupCount(t, w)
    {
      assert GroupsOf(n, w) == GroupsOf(t, w);
    }
  }

  // ---------------------------------------------------------------------
  // createGroup

  /** createGroup succeeds exactly for a valid name from a caller below the
      group limit; the new group is fresh, its creator is its only member,
      and the caller's count goes up by one. A refusal changes nothing. */
  lemma CreateGroupEffect(t: Tables, u: UserId, name: string)
    requires GroupsWf(t)
    ensures var st := CreateGroup(t, u, name);
      && (st.reply.Ok? <==> NameFits(name) && GroupCount(t, u) < GROUP_LIMIT)
      && (!NameFits(name) ==> st == Step(t, Err(InvalidInput)))
      && (NameFits(name) && GroupCount(t, u) >= GROUP_LIMIT ==> st == Step(t, Err(GroupLimitReached)))
      && (st.reply.Ok? ==>
            var g := st.reply.value;
            && g !in t.groups
            && st.next.groups == t.groups[g := Group(name, u)]
            && st.next.members == t.members + {(g, u)}
            && GroupMembers(st.next, g) == {u}
            && GroupCount(st.next, u) == GroupCount(t, u) + 1
            && st.next.(groups := t.groups, nextGroupId := t.nextGroupId, members := t.members) == t)
  {
    var st := CreateGroup(t, u, name);
    if st.reply.Ok? {
      var g := st.reply.value;
      assert (g, u) !in t.members;
      AddMemberCounts(t, g, u);
      assert forall p :: p in t.members ==> p.0 != g;
      assert GroupMembers(t, g) == {};
    }
  }

  /** createGroup keeps the table invariants and the limits. */
  lemma CreateGroupKeepsLimits(t: Tables, u: UserId, name: string)
    requires GroupsWf(t) && WithinLimits(t)
    ensures GroupsWf(CreateGroup(t, u, name).next)
    ensures WithinLimits(CreateGroup(t, u, name).next)
  {
    var st := CreateGroup(t, u, name);
    if st.reply.Ok? {
      CreateGroupEffect(t, u, name);
      var g := st.reply.value;
      AddMemberCounts(t, g, u);
      var m := t.(members := t.members + {(g, u)});
      assert forall h :: MemberCount(st.next, h) == MemberCount(m, h);
      assert forall w :: GroupCount(st.next, w) == GroupCount(m, w);
      forall p | p in st.next.members
        ensures MemberCount(st.next, p.0) <= MEMBER_LIMIT && GroupCount(st.next, p.1) <= GROUP_LIMIT
      {
        if p != (g, u) {
          assert p in t.members;
        }
      }
    }
  }

  // ---------------------------------------------------------------------
  // Emails

  lemma LowerAsciiIdempotent(s: string)
    ensures LowerAscii(LowerAscii(s)) == LowerAscii(s)
  {
  }

  /** The invite stores its email lowercased, and the acceptInvite comparison
      matches a user against the stored email exactly when it would match
      against the email as typed: the match ignores ASCII case. */
  lemma StoredEmailMatches(typed: string, account: string)
    ensures SameEmail(LowerAscii(typed), account) <==> SameEmail(typed, account)
  {
    LowerAsciiIdempotent(typed);
  }

  /** With unique emails the lookup by email finds the one user who has it. */
  lemma UserByEmailFinds(users: map<UserId, User>, v: UserId)
    requires UniqueEmails(users) && v in users
    ensures UserByEmail(users, users[v].email) == Some(v)
  {
  }

  // ---------------------------------------------------------------------
  // inviteToGroup

  /** The outcomes of an invite. Invalid input and a non-member caller are
      refused first; a registered user who already belongs to the group
      short-circuits with alreadyMember; a registered user is added only
      below both limits; an unknown email is stored lowercased, and a
      pending invite for it short-circuits. Every refusal and every
      short-circuit leaves the tables as they were. Past the caller's
      checks each case is pinned in the order the controller tests it:
      an unknown group, then for a registered non-member the member limit,
      the invitee's group limit and the insert, and for an unknown email
      the member limit, a pending invite and the new invite. */
  lemma InviteOutcomes(t: Tables, g: GroupId, u: UserId, email: string, emailOk: bool, tokenHash: string)
    ensures var st := InviteToGroup(t, g, u, email, emailOk, tokenHash);
      && (!emailOk ==> st == Step(t, Err(InvalidInput)))
      && (emailOk && !IsMember(t, g, u) ==> st == Step(t, Err(NotMember)))
      && (st.reply.Err? || st.reply == Ok(AlreadyMember) || st.reply == Ok(AlreadyInvited) ==> st.next == t)
      && (st.reply.Ok? ==> emailOk && IsMember(t, g, u) && g in t.groups)
      && (st.reply == Ok(AlreadyMember) <==>
            emailOk && IsMember(t, g, u) && g in t.groups &&
            UserByEmail(t.users, email).Some? && IsMember(t, g, UserByEmail(t.users, email).value))
      && (st.reply == Ok(Added) ==>
            var v := UserByEmail(t.users, email).value;
            && UserByEmail(t.users, email).Some?
            && !IsMember(t, g, v)
            && MemberCount(t, g) < MEMBER_LIMIT && GroupCount(t, v) < GROUP_LIMIT
            && st.next == t.(members := t.members + {(g, v)}))
      && (st.reply == Ok(AlreadyInvited) ==>
            UserByEmail(t.users, email).None? && HasPendingInvite(t.invites, g, LowerAscii(email)))
      && (st.reply == Ok(InviteCreated) ==>
            && UserByEmail(t.users, email).None?
            && MemberCount(t, g) < MEMBER_LIMIT
            && !HasPendingInvite(t.invites, g, LowerAscii(email))
            && st.next == t.(invites := t.invites + [Invite(g, LowerAscii(email), tokenHash, u, InvitePending, None)]))
    ensures var st := InviteToGroup(t, g, u, email, emailOk, tokenHash);
      emailOk && IsMember(t, g, u) && g !in t.groups ==> st == Step(t, Err(GroupNotFound))
    ensures var st := InviteToGroup(t, g, u, email, emailOk, tokenHash);
      var found := UserByEmail(t.users, email);
      emailOk && IsMember(t, g, u) && g in t.groups && found.Some? && !IsMember(t, g, found.value) ==>
        var v := found.value;
        && (MemberCount(t, g) >= MEMBER_LIMIT ==> st == Step(t, Err(MemberLimitReached)))
        && (MemberCount(t, g) < MEMBER_LIMIT && GroupCount(t, v) >= GROUP_LIMIT ==>
              st == Step(t, Err(UserGroupLimitReached)))
        && (MemberCount(t, g) < MEMBER_LIMIT && GroupCount(t, v) < GROUP_LIMIT ==>
              st == Step(t.(members := t.members + {(g, v)}), Ok(Added)))
    ensures var st := InviteToGroup(t, g, u, email, emailOk, tokenHash);
      var lower := LowerAscii(email);
      emailOk && IsMember(t, g, u) && g in t.groups && UserByEmail(t.users, email).None? ==>
        && (MemberCount(t, g) >= MEMBER_LIMIT ==> st == Step(t, Err(MemberLimitReached)))
        && (MemberCount(t, g) < MEMBER_LIMIT && HasPendingInvite(t.invites, g, lower) ==>
              st == Step(t, Ok(AlreadyInvited)))
        && (MemberCount(t, g) < MEMBER_LIMIT && !HasPendingInvite(t.invites, g, lower) ==>
              st == Step(t.(invites := t.invites + [Invite(g, lower, tokenHash, u, InvitePending, None)]),
                         Ok(InviteCreated)))
  {
  }

  /** Appending a pending invite for a (group, email) pair that has none
      keeps pending invites unique. */
  lemma AppendPendingKeepsUnique(invites: seq<Invite>, inv: Invite)
    requires NoDuplicatePending(invites)
    requires !HasPendingInvite(invites, inv.groupId, inv.email)
    ensures NoDuplicatePending(invites + [inv])
  {
    var s := invites + [inv];
    forall i, j | 0 <= i < j < |s| && s[i].status == InvitePending
      ensures !PendingInviteFor(s[j], s[i].groupId, s[i].email)
    {
      if j == |invites| && PendingInviteFor(inv, s[i].groupId, s[i].email) {
        assert PendingInviteFor(invites[i], inv.groupId, inv.email);
      }
    }
  }

  /** inviteToGroup keeps the table invariants, the limits, and the
      uniqueness of pending invites. */
  lemma InviteKeepsInvariants(t: Tables, g: GroupId, u: UserId, email: string, emailOk: bool, tokenHash: string)
    requires GroupsWf(t) && WithinLimits(t) && NoDuplicatePending(t.invites)
    ensures var n := InviteToGroup(t, g, u, email, emailOk, tokenHash).next;
      GroupsWf(n) && WithinLimits(n) && NoDuplicatePending(n.invites)
  {
    var st := InviteToGroup(t, g, u, email, emailOk, tokenHash);
    InviteOutcomes(t, g, u, email, emailOk, tokenHash);
    if st.reply == Ok(Added) {
      var v := UserByEmail(t.users, email).value;
      AddMemberLimits(t, g, v);
    } else if st.reply == Ok(InviteCreated) {
      var inv := Invite(g, LowerAscii(email), tokenHash, u, InvitePending, None);
      AppendPendingKeepsUnique(t.invites, inv);
      assert forall h :: MemberCount(st.next, h) == MemberCount(t, h);
      assert forall w :: GroupCount(st.next, w) == GroupCount(t, w);
    }
  }

  /** Adding a membership below both limits, to an existing group, keeps
      the table invariants and the limits. */
  lemma AddMemberLimits(t: Tables, g: GroupId, v: UserId)
    requires GroupsWf(t) && WithinLimits(t)
    requires g in t.groups && (g, v) !in t.members
    requires MemberCount(t, g) < MEMBER_LIMIT && GroupCount(t, v) < GROUP_LIMIT
    ensures var n := t.(members := t.members + {(g, v)}); GroupsWf(n) && WithinLimits(n)
  {
    var n := t.(members := t.members + {(g, v)});
    AddMemberCounts(t, g, v);
    forall p | p in n.members
      ensures MemberCount(n, p.0) <= MEMBER_LIMIT && GroupCount(n, p.1) <= GROUP_LIMIT
    {
      if p != (g, v) {
        assert p in t.members;
      }
    }
  }

  // ---------------------------------------------------------------------
  // acceptInvite

  /** The outcomes of accepting an invite. Invalid input, an unknown
      caller, no pending invite for the token, and an invite addressed to
      another email (compared ignoring ASCII case) are refused with no
      change. On success the invite is marked accepted by the caller and
      the caller belongs to its group. Once the emails match, a caller
      already in the group is accepted with no new row and no limit check;
      anyone else meets the member limit, then their own group limit, and
      is added with the invite accepted only below both. */
  lemma AcceptOutcomes(t: Tables, u: UserId, token: string, hash: string -> string)
    ensures var st := AcceptInvite(t, u, token, hash);
      && (st.reply.Err? ==> st.next == t)
      && (!(10 <= Utf16Length(token) <= 200) ==> st.reply == Err(InvalidInput))
      && (10 <= Utf16Length(token) <= 200 && u !in t.users ==> st.reply == Err(UnknownUser))
      && (10 <= Utf16Length(token) <= 200 && u in t.users && FindInvite(t.invites, hash(token)).None? ==>
            st.reply == Err(InviteNotFound))
      && (10 <= Utf16Length(token) <= 200 && u in t.users && FindInvite(t.invites, hash(token)).Some? ==>
            (st.reply == Err(InviteEmailMismatch) <==>
               !SameEmail(t.invites[FindInvite(t.invites, hash(token)).value].email, t.users[u].email)))
      && (st.reply.Ok? ==>
            var i := FindInvite(t.invites, hash(token)).value;
            var inv := t.invites[i];
            && u in t.users
            && FindInvite(t.invites, hash(token)).Some?
            && SameEmail(inv.email, t.users[u].email)
            && st.reply.value == inv.groupId
            && st.next.invites == t.invites[i := inv.(status := Accepted, acceptedBy := Some(u))]
            && st.next.members == t.members + {(inv.groupId, u)}
            && (!IsMember(t, inv.groupId, u) ==>
                  MemberCount(t, inv.groupId) < MEMBER_LIMIT && GroupCount(t, u) < GROUP_LIMIT)
            && st.next.(invites := t.invites, members := t.members) == t)
    ensures var st := AcceptInvite(t, u, token, hash);
      var found := FindInvite(t.invites, hash(token));
      10 <= Utf16Length(token) <= 200 && u in t.users && found.Some? ==>
        var i := found.value;
        var inv := t.invites[i];
        var g := inv.groupId;
        var accepted := t.invites[i := inv.(status := Accepted, acceptedBy := Some(u))];
        SameEmail(inv.email, t.users[u].email) ==>
          && (IsMember(t, g, u) ==> st == Step(t.(invites := accepted), Ok(g)))
          && (!IsMember(t, g, u) && MemberCount(t, g) >= MEMBER_LIMIT ==>
                st == Step(t, Err(MemberLimitReached)))
          && (!IsMember(t, g, u) && MemberCount(t, g) < MEMBER_LIMIT && GroupCount(t, u) >= GROUP_LIMIT ==>
                st == Step(t, Err(UserGroupLimitReached)))
          && (!IsMember(t, g, u) && MemberCount(t, g) < MEMBER_LIMIT && GroupCount(t, u) < GROUP_LIMIT ==>
                st == Step(t.(members := t.members + {(g, u)}, invites := accepted), Ok(g)))
  {
    var st := AcceptInvite(t, u, token, hash);
    if st.reply.Ok? {
      var inv := t.invites[FindInvite(t.invites, hash(token)).value];
      if IsMember(t, inv.groupId, u) {
        assert t.members + {(inv.groupId, u)} == t.members;
      }
    }
  }

  /** Accepting an invite keeps the table invariants, the limits, and the
      uniqueness of pending invites. */
  lemma AcceptKeepsInvariants(t: Tables, u: UserId, token: string, hash: string -> string)
    requires GroupsWf(t) && WithinLimits(t) && NoDuplicatePending(t.invites)
    ensures var n := AcceptInvite(t, u, token, hash).next;
      GroupsWf(n) && WithinLimits(n) && NoDuplicatePending(n.invites)
  {
    var st := AcceptInvite(t, u, token, hash);
    if st.reply.Ok? {
      AcceptOutcomes(t, u, token, hash);
      var i := FindInvite(t.invites, hash(token)).value;
      var inv := t.invites[i];
      var g := inv.groupId;
      var m := t.(members := t.members + {(g, u)});
      if !IsMember(t, g, u) {
        AddMemberLimits(t, g, u);
      } else {
        assert m == t;
      }
      assert st.next == m.(invites := st.next.invites);
      assert forall h :: MemberCount(st.next, h) == MemberCount(m, h);
      assert forall w :: GroupCount(st.next, w) == GroupCount(m, w);
      forall a, b | 0 <= a < b < |st.next.invites| && st.next.invites[a].status == InvitePending
        ensures !PendingInviteFor(st.next.invites[b], st.next.invites[a].groupId, st.next.invites[a].email)
      {
        assert a != i;
        assert st.next.invites[a] == t.invites[a];
      }
    }
  }

  /** No group request touches sessions, votes, items or things, so each
      keeps the ritual invariant. */
  lemma CreateGroupKeepsRitualWf(t: Tables, u: UserId, name: string)
    requires Wf(t)
    ensures Wf(CreateGroup(t, u, name).next)
  {
    RitualUntouched(t, CreateGroup(t, u, name).next);
  }

  lemma InviteKeepsRitualWf(t: Tables, g: GroupId, u: UserId, email: string, emailOk: bool, tokenHash: string)
    requires Wf(t)
    ensures Wf(InviteToGroup(t, g, u, email, emailOk, tokenHash).next)
  {
    InviteOutcomes(t, g, u, email, emailOk, tokenHash);
    RitualUntouched(t, InviteToGroup(t, g, u, email, emailOk, tokenHash).next);
  }

  lemma AcceptKeepsRitualWf(t: Tables, u: UserId, token: string, hash: string -> string)
    requires Wf(t)
    ensures Wf(AcceptInvite(t, u, token, hash).next)
  {
    AcceptOutcomes(t, u, token, hash);
    RitualUntouched(t, AcceptInvite(t, u, token, hash).next);
  }

  lemma RitualUntouched(t: Tables, n: Tables)
    requires Wf(t)
    requires n.things == t.things && n.nextThingId == t.nextThingId
    requires n.sessions == t.sessions && n.items == t.items
    ensures Wf(n)
  {
    assert forall sid :: ItemsOf(n, sid) == ItemsOf(t, sid);
  }
}
