/** The thing controller: members add things to a group, and the author of a
    thing may edit or delete it while it is still pending. Each request is a
    function from the tables before it to the tables after it and the reply. */
module ThingSpec {
  import opened Schema
  import opened RitualSpec

  // ---------------------------------------------------------------------
  // Input validation

  /** The request body of createThing and updateThing, before validation. */
  datatype ThingInput = ThingInput(text: string, kind: string, weight: string)

  /** A validated body. */
  datatype Draft = Draft(text: string, kind: ThingType, weight: EmotionalWeight)

  function KindName(k: ThingType): string
  {
    match k
    case Anecdote => "anecdote"
    case Important => "important"
    case Difficult => "difficult"
  }

  function WeightName(w: EmotionalWeight): string
  {
    match w
    case Normal => "normal"
    case Important => "important"
    case Difficult => "difficult"
  }

  /** The `type` enum of the request schema. */
  function ParseKind(s: string): (r: Option<ThingType>)
    ensures r.Some? ==> KindName(r.value) == s
    ensures forall k: ThingType :: KindName(k) == s ==> r == Some(k)
  {
    if s == "anecdote" then Some(Anecdote)
    else if s == "important" then Some(ThingType.Important)
    else if s == "difficult" then Some(ThingType.Difficult)
    else None
  }

  /** The `emotionalWeight` enum of the request schema. */
  function ParseWeight(s: string): (r: Option<EmotionalWeight>)
    ensures r.Some? ==> WeightName(r.value) == s
    ensures forall w: EmotionalWeight :: WeightName(w) == s ==> r == Some(w)
  {
    if s == "normal" then Some(Normal)
    else if s == "important" then Some(EmotionalWeight.Important)
    else if s == "difficult" then Some(EmotionalWeight.Difficult)
    else None
  }

  /** The text bound shared by create and update: 1 to 5000 code units. */
  predicate TextFits(text: string)
  {
    1 <= Utf16Length(text) <= 5000
  }

  /** The request schema: text within bounds and both enums known. */
  function Validate(input: ThingInput): (r: Result<Draft>)
    ensures r.Ok? <==> TextFits(input.text) && ParseKind(input.kind).Some? && ParseWeight(input.weight).Some?
    ensures r.Ok? ==> r.value.text == input.text && KindName(r.value.kind) == input.kind
                      && WeightName(r.value.weight) == input.weight
    ensures r.Err? ==> r.error == InvalidInput
  {
    var kind, weight := ParseKind(input.kind), ParseWeight(input.weight);
    if !TextFits(input.text) || kind.None? || weight.None? then Err(InvalidInput)
    else Ok(Draft(input.text, kind.value, weight.value))
  }

  // ---------------------------------------------------------------------
  // Requests

  /** createThing: validate, require membership, insert a pending thing
      authored by the caller; the reply is the new id. */
  function CreateThing(t: Tables, g: GroupId, u: UserId, input: ThingInput): Step<ThingId>
  {
    match Validate(input)
    case Err(e) => Step(t, Err(e))
    case Ok(d) =>
      if !IsMember(t, g, u) then Step(t, Err(NotMember))
      else
        var id := t.nextThingId;
        var thing := Thing(g, u, d.text, d.kind, d.weight, Pending);
        Step(t.(things := t.things[id := thing], nextThingId := id + 1), Ok(id))
  }

  /** The guards updateThing and deleteThing share, in their order: the
      thing exists, the caller wrote it, it is still pending. */
  function Editable(t: Tables, id: ThingId, u: UserId, notPending: ApiError): (r: Option<ApiError>)
    ensures r.None? ==> id in t.things && t.things[id].author == u && t.things[id].status == Pending
  {
    if id !in t.things then Some(ThingNotFound)
    else if t.things[id].author != u then Some(NotTheAuthor)
    else if t.things[id].status != Pending then Some(notPending)
    else None
  }

  /** updateThing: validate, check the guards, replace text, type and
      emotional weight. */
  function UpdateThing(t: Tables, id: ThingId, u: UserId, input: ThingInput): Step<()>
  {
    match Validate(input)
    case Err(e) => Step(t, Err(e))
    case Ok(d) =>
      match Editable(t, id, u, OnlyPendingEditable)
      case Some(e) => Step(t, Err(e))
      case None =>
        var thing := t.things[id].(text := d.text, kind := d.kind, weight := d.weight);
        Step(t.(things := t.things[id := thing]), Ok(()))
  }

  /** deleteThing: check the guards, remove the row. */
  function DeleteThing(t: Tables, id: ThingId, u: UserId): Step<()>
  {
    match Editable(t, id, u, OnlyPendingDeletable)
    case Some(e) => Step(t, Err(e))
    case None => Step(t.(things := t.things - {id}), Ok(()))
  }

  // ---------------------------------------------------------------------
  // Properties

  /** createThing succeeds exactly for valid input from a member; it then
      inserts one pending thing authored by the caller under a fresh id and
      changes nothing else. Invalid input is refused before membership is
      looked at. */
  lemma CreateThingEffect(t: Tables, g: GroupId, u: UserId, input: ThingInput)
    requires Wf(t)
    ensures var st := CreateThing(t, g, u, input);
      && (st.reply.Ok? <==> Validate(input).Ok? && IsMember(t, g, u))
      && (Validate(input).Err? ==> st == Step(t, Err(InvalidInput)))
      && (Validate(input).Ok? && !IsMember(t, g, u) ==> st == Step(t, Err(NotMember)))
      && (st.reply.Ok? ==>
            var id := st.reply.value;
            && id !in t.things
            && st.next.things.Keys == t.things.Keys + {id}
            && st.next.things[id].groupId == g && st.next.things[id].author == u
            && st.next.things[id].text == input.text && st.next.things[id].status == Pending
            && KindName(st.next.things[id].kind) == input.kind
            && WeightName(st.next.things[id].weight) == input.weight
            && (forall x :: x in t.things ==> st.next.things[x] == t.things[x])
            && st.next.(things := t.things, nextThingId := t.nextThingId) == t)
  {
  }

  /** The refusals of updateThing and deleteThing, in the order the source
      checks them: invalid input (update only), 404 for a missing thing,
      403 for anyone but the author, 400 once the thing is no longer
      pending. Every refusal leaves the tables as they were. */
  lemma EditRefusals(t: Tables, id: ThingId, u: UserId, input: ThingInput)
    ensures var up, del := UpdateThing(t, id, u, input), DeleteThing(t, id, u);
      && (up.reply.Err? ==> up.next == t)
      && (del.reply.Err? ==> del.next == t)
      && (Validate(input).Err? ==> up.reply == Err(InvalidInput))
      && (id !in t.things ==>
            del.reply == Err(ThingNotFound) && (Validate(input).Ok? ==> up.reply == Err(ThingNotFound)))
      && (id in t.things && t.things[id].author != u ==>
            del.reply == Err(NotTheAuthor) && (Validate(input).Ok? ==> up.reply == Err(NotTheAuthor)))
      && (id in t.things && t.things[id].author == u && t.things[id].status != Pending ==>
            del.reply == Err(OnlyPendingDeletable) &&
            (Validate(input).Ok? ==> up.reply == Err(OnlyPendingEditable)))
      && (del.reply.Ok? <==> id in t.things && t.things[id].author == u && t.things[id].status == Pending)
      && (up.reply.Ok? <==>
            Validate(input).Ok? && id in t.things && t.things[id].author == u && t.things[id].status == Pending)
  {
  }

  /** A successful update replaces text, type and emotional weight of that
      one thing; its group, author and status, every other thing and every
      other table stay as they were. */
  lemma UpdateChangesOnlyContent(t: Tables, id: ThingId, u: UserId, input: ThingInput)
    requires UpdateThing(t, id, u, input).reply.Ok?
    ensures var n := UpdateThing(t, id, u, input).next;
      && n.things.Keys == t.things.Keys
      && n.things[id].groupId == t.things[id].groupId
      && n.things[id].author == t.things[id].author == u
      && n.things[id].status == t.things[id].status == Pending
      && n.things[id].text == input.text
      && KindName(n.things[id].kind) == input.kind
      && WeightName(n.things[id].weight) == input.weight
      && (forall x :: x in t.things && x != id ==> n.things[x] == t.things[x])
      && n.(things := t.things) == t
  {
  }

  /** A successful delete removes that one pending thing of the caller and
      nothing else. */
  lemma DeleteRemovesOnlyIt(t: Tables, id: ThingId, u: UserId)
    requires DeleteThing(t, id, u).reply.Ok?
    ensures var n := DeleteThing(t, id, u).next;
      && t.things[id].author == u && t.things[id].status == Pending
      && n.things.Keys == t.things.Keys - {id}
      && (forall x :: x in n.things ==> n.things[x] == t.things[x])
      && n.(things := t.things) == t
  {
  }

  /** A told thing cannot be changed or removed through this controller:
      whatever the request and whoever sends it, its row survives as it
      was. */
  lemma ToldThingsFrozen(t: Tables, x: ThingId, g: GroupId, id: ThingId, u: UserId, input: ThingInput)
    requires Wf(t)
    requires x in t.things && t.things[x].status == Told
    ensures var c := CreateThing(t, g, u, input).next; x in c.things && c.things[x] == t.things[x]
    ensures var up := UpdateThing(t, id, u, input).next; x in up.things && up.things[x] == t.things[x]
    ensures var del := DeleteThing(t, id, u).next; x in del.things && del.things[x] == t.things[x]
  {
    CreateThingEffect(t, g, u, input);
  }

  /** Tables that differ from `t` only in the things table and the next
      thing id, with no thing id at or past that next id, keep the
      invariant. */
  lemma OnlyThingsChangedKeepsWf(t: Tables, n: Tables)
    requires Wf(t)
    requires n.(things := t.things, nextThingId := t.nextThingId) == t
    requires forall id :: id in n.things ==> id < n.nextThingId
    ensures Wf(n)
  {
    assert n.sessions == t.sessions && n.items == t.items;
    assert forall sid :: ItemsOf(n, sid) == ItemsOf(t, sid);
  }

  /** The three requests keep the invariant of reachable tables. */
  lemma CreateThingKeepsWf(t: Tables, g: GroupId, u: UserId, input: ThingInput)
    requires Wf(t)
    ensures Wf(CreateThing(t, g, u, input).next)
  {
    var n := CreateThing(t, g, u, input).next;
    if CreateThing(t, g, u, input).reply.Ok? {
      assert n == t.(things := n.things, nextThingId := t.nextThingId + 1);
      OnlyThingsChangedKeepsWf(t, n);
    }
  }

  lemma UpdateThingKeepsWf(t: Tables, id: ThingId, u: UserId, input: ThingInput)
    requires Wf(t)
    ensures Wf(UpdateThing(t, id, u, input).next)
  {
    var n := UpdateThing(t, id, u, input).next;
    if UpdateThing(t, id, u, input).reply.Ok? {
      assert n == t.(things := n.things);
      OnlyThingsChangedKeepsWf(t, n);
    }
  }

  lemma DeleteThingKeepsWf(t: Tables, id: ThingId, u: UserId)
    requires Wf(t)
    ensures Wf(DeleteThing(t, id, u).next)
  {
    var n := DeleteThing(t, id, u).next;
    if DeleteThing(t, id, u).reply.Ok? {
      assert n == t.(things := t.things - {id});
      OnlyThingsChangedKeepsWf(t, n);
    }
  }
}
