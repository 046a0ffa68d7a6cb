/** The group controller's decisions: creating a group under the per-user
    limit, inviting by email, and accepting an invite. Each request is a
    function from the tables before it to the tables after it and the reply;
    the limits and the uniqueness of pending invites are proved to be kept. */
module GroupSpec {
  import opened Schema
  import opened RitualSpec

  /** The most groups a user may belong to. */
  const GROUP_LIMIT: nat := 20
  /** The most members a group may have. */
  const MEMBER_LIMIT: nat := 20

  /** The groups a user belongs to. */
  function GroupsOf(t: Tables, u: UserId): set<GroupId>
  {
    set p | p in t.members && p.1 == u :: p.0
  }

  /** The user's membership count (COUNT(*) over group_members). */
  function GroupCount(t: Tables, u: UserId): nat
  {
    |GroupsOf(t, u)|
  }

  /** groupNameSchema: 2 to 120 code units. */
  predicate NameFits(name: string)
  {
    2 <= Utf16Length(name) <= 120
  }

  // ---------------------------------------------------------------------
  // createGroup

  /** createGroup: validate the name, refuse a caller already in the
      maximum number of groups, then insert the group with the caller as
      creator and first member; the reply is the new id. */
  function CreateGroup(t: Tables, u: UserId, name: string): Step<GroupId>
  {
    if !NameFits(name) then Step(t, Err(InvalidInput))
    else if GroupCount(t, u) >= GROUP_LIMIT then Step(t, Err(GroupLimitReached))
    else
      var g := t.nextGroupId;
      Step(t.(groups := t.groups[g := Group(name, u)], nextGroupId := g + 1,
              members := t.members + {(g, u)}),
           Ok(g))
  }

  // ---------------------------------------------------------------------
  // Emails

  function LowerChar(c: char): (r: char)
  {
    if 'A' <= c <= 'Z' then (c as int + 32) as char else c
  }

  /** `toLowerCase` on the ASCII letters; every other character is kept. */
  function LowerAscii(s: string): (r: string)
    ensures |r| == |s|
    ensures forall i :: 0 <= i < |s| ==> r[i] == LowerChar(s[i])
  {
    if |s| == 0 then [] else [LowerChar(s[0])] + LowerAscii(s[1..])
  }

  /** Two emails the invite check treats as the same address. */
  predicate SameEmail(a: string, b: string)
  {
    LowerAscii(a) == LowerAscii(b)
  }

  /** The users table never holds one email twice: registration refuses an
      email already in use. */
  predicate UniqueEmails(users: map<UserId, User>)
  {
    forall a, b :: a in users && b in users && users[a].email == users[b].email ==> a == b
  }

  /** `SELECT id FROM users WHERE email = ?`. */
  ghost function UserByEmail(users: map<UserId, User>, email: string): (r: Option<UserId>)
    ensures r.Some? ==> r.value in users && users[r.value].email == email
    ensures r.None? ==> forall id :: id in users ==> users[id].email != email
  {
    if exists id :: id in users && users[id].email == email then
      var id :| id in users && users[id].email == email;
      Some(id)
    else None
  }

  /** A pending invite of group `g` for the stored email `email`. */
  predicate PendingInviteFor(inv: Invite, g: GroupId, email: string)
  {
    inv.groupId == g && inv.email == email && inv.status == InvitePending
  }

  predicate HasPendingInvite(invites: seq<Invite>, g: GroupId, email: string)
  {
    exists i :: 0 <= i < |invites| && PendingInviteFor(invites[i], g, email)
  }

  /** A group never has two pending invites for one email. */
  predicate NoDuplicatePending(invites: seq<Invite>)
  {
    forall i, j :: 0 <= i < j < |invites| && invites[i].status == InvitePending ==>
      !PendingInviteFor(invites[j], invites[i].groupId, invites[i].email)
  }

  // ---------------------------------------------------------------------
  // inviteToGroup

  datatype InviteReply =
    | AlreadyInvited   // 200, "Invite already pending"
    | InviteCreated    // 201, with the invite link
    | AlreadyMember    // 200, alreadyMember
    | Added            // 201

  /** inviteToGroup. `emailOk` is the email schema's verdict and
      `tokenHash` the hash of the fresh random token. */
  ghost function InviteToGroup(t: Tables, g: GroupId, u: UserId, email: string, emailOk: bool,
                               tokenHash: string): Step<InviteReply>
  {
    if !emailOk then Step(t, Err(InvalidInput))
    else if !IsMember(t, g, u) then Step(t, Err(NotMember))
    else if g !in t.groups then Step(t, Err(GroupNotFound))
    else match UserByEmail(t.users, email)
      case None =>
        if MemberCount(t, g) >= MEMBER_LIMIT then Step(t, Err(MemberLimitReached))
        else
          var lower := LowerAscii(email);
          if HasPendingInvite(t.invites, g, lower) then Step(t, Ok(AlreadyInvited))
          else Step(t.(invites := t.invites + [Invite(g, lower, tokenHash, u, InvitePending, None)]),
                    Ok(InviteCreated))
      case Some(v) =>
        if IsMember(t, g, v) then Step(t, Ok(AlreadyMember))
        else if MemberCount(t, g) >= MEMBER_LIMIT then Step(t, Err(MemberLimitReached))
        else if GroupCount(t, v) >= GROUP_LIMIT then Step(t, Err(UserGroupLimitReached))
        else Step(t.(members := t.members + {(g, v)}), Ok(Added))
  }

  // ---------------------------------------------------------------------
  // acceptInvite

  /** `SELECT * FROM group_invites WHERE token_hash = ? AND status =
      'pending' LIMIT 1`: the first such invite. */
  function FindInvite(invites: seq<Invite>, hash: string): (r: Option<nat>)
    ensures r.Some? ==> r.value < |invites| && invites[r.value].tokenHash == hash
                        && invites[r.value].status == InvitePending
    ensures r.Some? ==> forall i :: 0 <= i < r.value ==>
      !(invites[i].tokenHash == hash && invites[i].status == InvitePending)
    ensures r.None? ==> forall i :: 0 <= i < |invites| ==>
      !(invites[i].tokenHash == hash && invites[i].status == InvitePending)
  {
    if |invites| == 0 then None
    else if invites[0].tokenHash == hash && invites[0].status == InvitePending then Some(0)
    else match FindInvite(invites[1..], hash)
      case None => None
      case Some(i) => Some(i + 1)
  }

  /** acceptInvite. `hash` is the token hash function. */
  function AcceptInvite(t: Tables, u: UserId, token: string, hash: string -> string): Step<GroupId>
  {
    if !(10 <= Utf16Length(token) <= 200) then Step(t, Err(InvalidInput))
    else if u !in t.users then Step(t, Err(UnknownUser))
    else match FindInvite(t.invites, hash(token))
      case None => Step(t, Err(InviteNotFound))
      case Some(i) =>
        var inv := t.invites[i];
        if !SameEmail(inv.email, t.users[u].email) then Step(t, Err(InviteEmailMismatch))
        else
          var accepted := t.invites[i := inv.(status := Accepted, acceptedBy := Some(u))];
          var g := inv.groupId;
          if IsMember(t, g, u) then Step(t.(invites := accepted), Ok(g))
          else if MemberCount(t, g) >= MEMBER_LIMIT then Step(t, Err(MemberLimitReached))
          else if GroupCount(t, u) >= GROUP_LIMIT then Step(t, Err(UserGroupLimitReached))
          else Step(t.(members := t.members + {(g, u)}, invites := accepted), Ok(g))
  }

  // ---------------------------------------------------------------------
  // Invariants of reachable tables

  /** Group ids are below the next id, and every membership and every
      invite names a group. */
  predicate GroupsWf(t: Tables)
  {
    && (forall g :: g in t.groups ==> g < t.nextGroupId)
    && (forall p :: p in t.members ==> p.0 in t.groups)
    && (forall i :: 0 <= i < |t.invites| ==> t.invites[i].groupId in t.groups)
  }

  /** No group over the member limit, no member over the group limit. */
  predicate WithinLimits(t: Tables)
  {
    forall p :: p in t.members ==> MemberCount(t, p.0) <= MEMBER_LIMIT && GroupCount(t, p.1) <= GROUP_LIMIT
  }
}
