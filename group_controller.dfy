/** The group controller's handlers over the database, each proved to take
    the tables exactly where the functions of GroupSpec say. */
module GroupController {
  import opened Schema
  import opened RitualSpec
  import opened GroupSpec

  method CreateGroup(db: Database, u: UserId, name: string) returns (r: Result<GroupId>)
    modifies db
    ensures Step(db.State(), r) == GroupSpec.CreateGroup(old(db.State()), u, name)
  {
    if !NameFits(name) {
      return Err(InvalidInput);
    }
    if GroupCount(db.State(), u) >= GROUP_LIMIT {
      return Err(GroupLimitReached);
    }
    var g := db.nextGroupId;
    db.groups := db.groups[g := Group(name, u)];
    db.nextGroupId := g + 1;
    db.members := db.members + {(g, u)};
    r := Ok(g);
  }

  /** The users lookup by email, scanning the table. */
  method LookUpUser(users: map<UserId, User>, email: string) returns (r: Option<UserId>)
    requires UniqueEmails(users)
    ensures r == UserByEmail(users, email)
  {
    var left := users.Keys;
    while left != {}
      invariant left <= users.Keys
      invariant forall id :: id in users.Keys - left ==> users[id].email != email
      decreases |left|
    {
      var id :| id in left;
      if users[id].email == email {
        return Some(id);
      }
      left := left - {id};
    }
    return None;
  }

  method InviteToGroup(db: Database, g: GroupId, u: UserId, email: string, emailOk: bool, tokenHash: string)
    returns (r: Result<InviteReply>)
    requires UniqueEmails(db.users)
    modifies db
    ensures Step(db.State(), r) == GroupSpec.InviteToGroup(old(db.State()), g, u, email, emailOk, tokenHash)
  {
    if !emailOk {
      return Err(InvalidInput);
    }
    if (g, u) !in db.members {
      return Err(NotMember);
    }
    if g !in db.groups {
      return Err(GroupNotFound);
    }
    var invitee := LookUpUser(db.users, email);
    if invitee.None? {
      if MemberCount(db.State(), g) >= MEMBER_LIMIT {
        return Err(MemberLimitReached);
      }
      var lower := LowerAscii(email);
      if HasPendingInvite(db.invites, g, lower) {
        return Ok(AlreadyInvited);
      }
      db.invites := db.invites + [Invite(g, lower, tokenHash, u, InvitePending, None)];
      return Ok(InviteCreated);
    }
    var v := invitee.value;
    if (g, v) in db.members {
      return Ok(AlreadyMember);
    }
    if MemberCount(db.State(), g) >= MEMBER_LIMIT {
      return Err(MemberLimitReached);
    }
    if GroupCount(db.State(), v) >= GROUP_LIMIT {
      return Err(UserGroupLimitReached);
    }
    db.members := db.members + {(g, v)};
    r := Ok(Added);
  }

  method AcceptInvite(db: Database, u: UserId, token: string, hash: string -> string) returns (r: Result<GroupId>)
    modifies db
    ensures Step(db.State(), r) == GroupSpec.AcceptInvite(old(db.State()), u, token, hash)
  {
    if !(10 <= Utf16Length(token) <= 200) {
      return Err(InvalidInput);
    }
    if u !in db.users {
      return Err(UnknownUser);
    }
    var found := FindInvite(db.invites, hash(token));
    if found.None? {
      return Err(InviteNotFound);
    }
    var i := found.value;
    var inv := db.invites[i];
    if LowerAscii(inv.email) != LowerAscii(db.users[u].email) {
      return Err(InviteEmailMismatch);
    }
    var g := inv.groupId;
    if (g, u) in db.members {
      db.invites := db.invites[i := inv.(status := Accepted, acceptedBy := Some(u))];
      return Ok(g);
    }
    if MemberCount(db.State(), g) >= MEMBER_LIMIT {
      return Err(MemberLimitReached);
    }
    if GroupCount(db.State(), u) >= GROUP_LIMIT {
      return Err(UserGroupLimitReached);
    }
    db.members := db.members + {(g, u)};
    db.invites := db.invites[i := inv.(status := Accepted, acceptedBy := Some(u))];
    r := Ok(g);
  }
}
