/** The member list of getGroup: per member, the number of pending things
    they wrote in the group and the heaviest emotional weight among them,
    turned into a label. */
module GroupMembers {
  import opened Schema
  import opened RitualSpec

  /** The query's `CASE emotional_weight`: difficult 3, important 2,
      normal 1. */
  function WeightScore(w: EmotionalWeight): (n: nat)
    ensures 1 <= n <= 3
  {
    match w
    case Normal => 1
    case Important => 2
    case Difficult => 3
  }

  /** The ids among `ids` of things written by `u`, in the same order. */
  function AuthoredBy(things: map<ThingId, Thing>, ids: seq<ThingId>, u: UserId): (r: seq<ThingId>)
    ensures |r| <= |ids|
    ensures forall id :: id in r <==> id in ids && id in things && things[id].author == u
  {
    if |ids| == 0 then []
    else
      var rest := AuthoredBy(things, ids[1..], u);
      if ids[0] in things && things[ids[0]].author == u then [ids[0]] + rest else rest
  }

  /** The pending things `u` wrote in group `g`: the LEFT JOIN of a member
      with their pending things. */
  function PendingOf(t: Tables, g: GroupId, u: UserId): (r: seq<ThingId>)
    ensures forall id: ThingId :: id in r <==> id < t.nextThingId && IsPendingIn(t.things, g, id) && t.things[id].author == u
  {
    AuthoredBy(t.things, PendingIds(t, g), u)
  }

  /** The largest weight score among the given things; None when there
      are none. */
  function MaxScore(things: map<ThingId, Thing>, ids: seq<ThingId>): (r: Option<nat>)
    requires forall i :: 0 <= i < |ids| ==> ids[i] in things
    ensures r.None? <==> |ids| == 0
    ensures r.Some? ==> exists i :: 0 <= i < |ids| && WeightScore(things[ids[i]].weight) == r.value
    ensures r.Some? ==> forall i :: 0 <= i < |ids| ==> WeightScore(things[ids[i]].weight) <= r.value
  {
    if |ids| == 0 then None
    else
      var s := WeightScore(things[ids[0]].weight);
      match MaxScore(things, ids[1..])
      case None => Some(s)
      case Some(m) => Some(if s < m then m else s)
  }

  /** One row of the member query. */
  datatype MemberRow = MemberRow(id: UserId, pendingCount: nat, pendingWeightScore: Option<int>)

  /** The query's row for member `u` of group `g`. A member with no
      pending thing still has one joined row, whose null weight the CASE
      sends to its ELSE branch, so `MAX` gives 0 rather than null. */
  function MemberRowOf(t: Tables, g: GroupId, u: UserId): MemberRow
  {
    var ids := PendingOf(t, g, u);
    MemberRow(u, |ids|, match MaxScore(t.things, ids) case None => Some(0) case Some(m) => Some(m))
  }

  /** One entry of membersNormalized. */
  datatype MemberView = MemberView(id: UserId, pendingCount: nat, pendingWeight: Option<EmotionalWeight>)

  /** The score compared with 1, 2 and 3 in turn; any other score gives
      no label. */
  function WeightLabel(score: int): (r: Option<EmotionalWeight>)
    ensures r.Some? <==> 1 <= score <= 3
    ensures r.Some? ==> WeightScore(r.value) == score
  {
    var pendingWeight := None;
    var pendingWeight := if score == 1 then Some(Normal) else pendingWeight;
    var pendingWeight := if score == 2 then Some(EmotionalWeight.Important) else pendingWeight;
    if score == 3 then Some(EmotionalWeight.Difficult) else pendingWeight
  }

  /** The mapping applied to one row: a null score reads as 0. */
  function NormalizeMember(row: MemberRow): MemberView
  {
    var score := match row.pendingWeightScore case None => 0 case Some(s) => s;
    MemberView(row.id, row.pendingCount, WeightLabel(score))
  }

  /** membersNormalized: the mapping applied to every row, in order. */
  function NormalizeMembers(rows: seq<MemberRow>): (r: seq<MemberView>)
    ensures |r| == |rows|
    ensures forall i :: 0 <= i < |rows| ==> r[i].id == rows[i].id && r[i].pendingCount == rows[i].pendingCount
    ensures forall i :: 0 <= i < |rows| ==> r[i] == NormalizeMember(rows[i])
  {
    if |rows| == 0 then [] else [NormalizeMember(rows[0])] + NormalizeMembers(rows[1..])
  }

  /** The label reads the score back: each weight's score is labelled with
      that weight. */
  lemma LabelInvertsScore(w: EmotionalWeight)
    ensures WeightLabel(WeightScore(w)) == Some(w)
  {
  }

  /** A member's label is absent exactly when they have no pending thing in
      the group, and their row then carries the score 0; otherwise the label
      is the weight of one of their pending things, and no pending thing of
      theirs weighs more. */
  lemma PendingWeightIsHeaviest(t: Tables, g: GroupId, u: UserId)
    ensures var v := NormalizeMember(MemberRowOf(t, g, u));
      && v.id == u
      && v.pendingCount == |PendingOf(t, g, u)|
      && (|PendingOf(t, g, u)| == 0 ==> MemberRowOf(t, g, u).pendingWeightScore == Some(0))
      && (v.pendingWeight.None? <==> |PendingOf(t, g, u)| == 0)
      && (v.pendingWeight.Some? ==>
            && (exists id :: id in PendingOf(t, g, u) && t.things[id].weight == v.pendingWeight.value)
            && (forall id :: id in PendingOf(t, g, u) ==>
                  WeightScore(t.things[id].weight) <= WeightScore(v.pendingWeight.value)))
  {
    var ids := PendingOf(t, g, u);
    var m := MaxScore(t.things, ids);
    var v := NormalizeMember(MemberRowOf(t, g, u));
    if m.Some? {
      var i :| 0 <= i < |ids| && WeightScore(t.things[ids[i]].weight) == m.value;
      LabelInvertsScore(t.things[ids[i]].weight);
      assert v.pendingWeight == Some(t.things[ids[i]].weight);
    }
  }
}
