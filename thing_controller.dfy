/** The thing controller's handlers over the database, each proved to take
    the tables exactly where the functions of ThingSpec say. */
module ThingController {
  import opened Schema
  import opened RitualSpec
  import opened ThingSpec

  method CreateThing(db: Database, g: GroupId, u: UserId, input: ThingInput) returns (r: Result<ThingId>)
    modifies db
    ensures Step(db.State(), r) == ThingSpec.CreateThing(old(db.State()), g, u, input)
  {
    var parsed := Validate(input);
    if parsed.Err? {
      return Err(parsed.error);
    }
    if (g, u) !in db.members {
      return Err(NotMember);
    }
    var d := parsed.value;
    var id := db.nextThingId;
    db.things := db.things[id := Thing(g, u, d.text, d.kind, d.weight, Pending)];
    db.nextThingId := id + 1;
    r := Ok(id);
  }

  method UpdateThing(db: Database, id: ThingId, u: UserId, input: ThingInput) returns (r: Result<()>)
    modifies db
    ensures Step(db.State(), r) == ThingSpec.UpdateThing(old(db.State()), id, u, input)
  {
    var parsed := Validate(input);
    if parsed.Err? {
      return Err(parsed.error);
    }
    if id !in db.things {
      return Err(ThingNotFound);
    }
    var thing := db.things[id];
    if thing.author != u {
      return Err(NotTheAuthor);
    }
    if thing.status != Pending {
      return Err(OnlyPendingEditable);
    }
    var d := parsed.value;
    db.things := db.things[id := thing.(text := d.text, kind := d.kind, weight := d.weight)];
    r := Ok(());
  }

  method DeleteThing(db: Database, id: ThingId, u: UserId) returns (r: Result<()>)
    modifies db
    ensures Step(db.State(), r) == ThingSpec.DeleteThing(old(db.State()), id, u)
  {
    if id !in db.things {
      return Err(ThingNotFound);
    }
    var thing := db.things[id];
    if thing.author != u {
      return Err(NotTheAuthor);
    }
    if thing.status != Pending {
      return Err(OnlyPendingDeletable);
    }
    db.things := db.things - {id};
    r := Ok(());
  }
}
