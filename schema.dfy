/** The persisted tables the controllers read and write (users, groups,
    group_members, group_invites, things, ritual_sessions, ritual_votes,
    ritual_session_items), their row types, and the errors the controllers
    answer with. */
module Schema {

  type UserId = nat
  type GroupId = nat
  type ThingId = nat
  /** A ritual session's id is its index in the sessions table: ids are
      assigned in creation order, so "latest" means "largest id". */
  type SessionId = nat

  datatype Option<T> = None | Some(value: T)

  datatype SessionStatus = Voting | Active | Paused | Completed
  datatype VoteChoice = Yes | No
  datatype ThingStatus = Pending | Told

  /** The `type` enum of a thing. */
  datatype ThingType = Anecdote | Important | Difficult
  /** The `emotional_weight` enum of a thing. */
  datatype EmotionalWeight = Normal | Important | Difficult

  datatype InviteStatus = InvitePending | Accepted

  /** The value the schema gives `current_position` when a session row is
      inserted. The inserting statement never sets it, so it comes from a
      column default that is not part of this model; 1 is the value that
      makes the first tell reveal position 1. */
  const INITIAL_POSITION: nat := 1

  datatype User = User(email: string)
  datatype Group = Group(name: string, creator: UserId)
  datatype Thing = Thing(groupId: GroupId, author: UserId, text: string,
                         kind: ThingType, weight: EmotionalWeight, status: ThingStatus)
  datatype Session = Session(groupId: GroupId, status: SessionStatus, position: nat)
  /** One row of ritual_session_items; its position is its index + 1 in the
      session's sequence, and `told` says whether `told_at` is set. */
  datatype SessionItem = SessionItem(thingId: ThingId, told: bool)
  datatype Invite = Invite(groupId: GroupId, email: string, tokenHash: string,
                           createdBy: UserId, status: InviteStatus,
                           acceptedBy: Option<UserId>)

  /** Every table at one instant. */
  datatype Tables = Tables(
    users: map<UserId, User>,
    groups: map<GroupId, Group>,
    nextGroupId: GroupId,
    members: set<(GroupId, UserId)>,
    invites: seq<Invite>,
    things: map<ThingId, Thing>,
    nextThingId: ThingId,
    sessions: seq<Session>,
    votes: map<(SessionId, UserId), VoteChoice>,
    items: map<SessionId, seq<SessionItem>>)

  /** The error replies of the controllers. */
  datatype ApiError =
    | InvalidInput
    | NotMember
    | NoOpenSession
    | VotingNotOpen
    | RitualNotActive
    | NoCurrentItem
    | CurrentItemAlreadyTold
    | NotActive
    | NotPaused
    | ThingNotFound
    | NotTheAuthor
    | OnlyPendingEditable
    | OnlyPendingDeletable
    | GroupLimitReached
    | GroupNotFound
    | MemberLimitReached
    | UserGroupLimitReached
    | UnknownUser
    | InviteNotFound
    | InviteEmailMismatch

  function HttpStatus(e: ApiError): nat
  {
    match e
    case NotMember | NotTheAuthor | InviteEmailMismatch => 403
    case ThingNotFound | GroupNotFound | InviteNotFound => 404
    case UnknownUser => 401
    case _ => 400
  }

  function Message(e: ApiError): string
  {
    match e
    case InvalidInput => "Invalid input"
    case NotMember => "Not a member"
    case NoOpenSession => "No open ritual session"
    case VotingNotOpen => "Voting is not open"
    case RitualNotActive => "Ritual is not active"
    case NoCurrentItem => "No current item"
    case CurrentItemAlreadyTold => "Current item already told"
    case NotActive => "Not active"
    case NotPaused => "Not paused"
    case ThingNotFound => "Thing not found"
    case NotTheAuthor => "Not the author"
    case OnlyPendingEditable => "Only pending items can be edited"
    case OnlyPendingDeletable => "Only pending items can be deleted"
    case GroupLimitReached => "Group limit reached (20)"
    case GroupNotFound => "Group not found"
    case MemberLimitReached => "Group member limit reached (20)"
    case UserGroupLimitReached => "User group limit reached (20)"
    case UnknownUser => "Unknown user"
    case InviteNotFound => "Invite not found"
    case InviteEmailMismatch => "Invite email does not match your account"
  }

  datatype Result<T> = Ok(value: T) | Err(error: ApiError)

  /** The length JavaScript reports for a string: UTF-16 code units, two
      for a character outside the Basic Multilingual Plane. */
  function Utf16Length(s: string): (n: nat)
    ensures |s| <= n <= 2 * |s|
  {
    if |s| == 0 then 0
    else (if s[0] as int > 0xFFFF then 2 else 1) + Utf16Length(s[1..])
  }

  /** The database: one field per table. Controller operations are methods
      elsewhere that take the database, as the source's handlers take a
      connection; each such method is one transaction. */
  class Database {
    var users: map<UserId, User>
    var groups: map<GroupId, Group>
    var nextGroupId: GroupId
    var members: set<(GroupId, UserId)>
    var invites: seq<Invite>
    var things: map<ThingId, Thing>
    var nextThingId: ThingId
    var sessions: seq<Session>
    var votes: map<(SessionId, UserId), VoteChoice>
    var items: map<SessionId, seq<SessionItem>>

    /** The contents of every table. */
    function State(): Tables
      reads this
    {
      Tables(users, groups, nextGroupId, members, invites, things, nextThingId,
             sessions, votes, items)
    }

    constructor (initial: Tables)
      ensures State() == initial
    {
      users, groups, nextGroupId := initial.users, initial.groups, initial.nextGroupId;
      members, invites := initial.members, initial.invites;
      things, nextThingId := initial.things, initial.nextThingId;
      sessions, votes, items := initial.sessions, initial.votes, initial.items;
    }
  }
}
