/** The community route handlers as imperative code over the store, each
    proved to produce the response and the store its function in
    `CommunityWorkflow` describes. */
module CommunityHandlers {
  import opened Base
  import opened Store
  import opened Shared
  import W = CommunityWorkflow

  method GenerateInvite(db: Db, user: Option<UserId>, id: int, rand: nat -> HexDigit,
                        faults: nat -> bool, now: int)
    returns (resp: Response<Row<Invite>>)
    modifies db
    ensures Outcome(resp, db.State()) == W.GenerateInvite(old(db.State()), user, id, rand, faults, now)
  {
    if user.None? {
      return Response(401, Error(W.Unauthorized));
    }
    var code;
    ghost var lookups;
    code, lookups := GenerateUniqueInviteCode(db, CommunityEntity, rand, faults);
    if code.Err? {
      return Response(500, Error(W.CodeFailed));
    }
    var owned := FindFirst(db.communities, OwnedCommunity(id, user.value));
    if owned.None? {
      return Response(403, Error(W.NotInviter));
    }
    var row := db.InsertCommunityInvite(Invite(code.value, id, user.value, now + W.InviteLifetime));
    return Response(200, Data(row));
  }

  method JoinCommunity(db: Db, user: Option<UserId>, id: int) returns (resp: Response<W.JoinOutcome>)
    modifies db
    ensures Outcome(resp, db.State()) == W.JoinCommunity(old(db.State()), user, id)
  {
    if user.None? {
      return Response(401, Text(W.Unauthorized));
    }
    var existingMember := FindFirst(db.members, MemberOf(user.value, id));
    if existingMember.Some? {
      return Response(400, Error(W.AlreadyMember));
    }
    var community := FindFirst(db.communities, ById(id));
    if community.None? {
      return Response(404, Error(W.CommunityNotFound));
    }
    if db.communities[community.value].val.isPrivate {
      var request := db.InsertCommunityJoinRequest(JoinRequest(user.value, id, Pending));
      return Response(200, Data(W.Requested([request])));
    }
    var member := db.InsertMember(CommunityMember(id, user.value, Member));
    return Response(200, Data(W.Joined([member])));
  }

  method AcceptJoinRequest(db: Db, user: Option<UserId>, id: int, requestId: int)
    returns (resp: Response<seq<Row<CommunityMember>>>)
    modifies db
    ensures Outcome(resp, db.State()) == W.AcceptJoinRequest(old(db.State()), user, id, requestId)
  {
    if user.None? {
      return Response(401, Error(W.Unauthorized));
    }
    var community := FindFirst(db.communities, ById(id));
    if community.None? || db.communities[community.value].val.createdBy != user.value {
      return Response(401, Error(W.Unauthorized));
    }
    var joinRequest := FindFirst(db.communityJoinRequests, ById(requestId));
    if joinRequest.None? {
      return Response(404, Error(W.RequestNotFound));
    }
    var requester := db.communityJoinRequests[joinRequest.value].val.userId;
    var inserted := db.InsertMember(CommunityMember(id, requester, Member));
    db.SetCommunityJoinRequestStatus(requestId, Approved);
    return Response(200, Data([inserted]));
  }

  method LeaveCommunity(db: Db, user: Option<UserId>, id: int) returns (resp: Response<seq<Row<CommunityMember>>>)
    modifies db
    ensures Outcome(resp, db.State()) == W.LeaveCommunity(old(db.State()), user, id)
  {
    if user.None? {
      return Response(401, Text(W.Unauthorized));
    }
    var existingMember := FindFirst(db.members, MemberOf(user.value, id));
    if existingMember.None? {
      return Response(400, Error(W.NotMember));
    }
    var deleted := db.DeleteMember(db.members[existingMember.value].id);
    return Response(200, Data(deleted));
  }

  method CreateCommunity(db: Db, user: Option<UserId>, body: W.CommunityBody) returns (resp: Response<Row<Community>>)
    modifies db
    ensures Outcome(resp, db.State()) == W.CreateCommunity(old(db.State()), user, body)
  {
    if user.None? {
      return Response(401, Text(W.Unauthorized));
    }
    var inserted := db.InsertCommunity(W.NewCommunity(user.value, body));
    var _ := db.InsertMember(CommunityMember(inserted.id, user.value, Admin));
    return Response(200, Data(inserted));
  }

  method GetCommunityById(db: Db, user: Option<UserId>, id: int) returns (resp: Response<W.CommunityDetails>)
    ensures resp == W.Details(db.State(), user, id)
  {
    if user.None? {
      return Response(401, Text(W.Unauthorized));
    }
    var found := FindFirst(db.communities, ById(id));
    var community := if found.Some? then Some(db.communities[found.value]) else None;
    var trips := if found.Some? then Filter(db.trips, TripsOfCommunity(id)) else [];
    var members := if found.Some? then Filter(db.members, InCommunity(id)) else [];
    var c := Count(db.members, InCommunity(id));
    var me := FindFirst(db.members, MemberOf(user.value, id));
    var isAdmin := me.Some? && db.members[me.value].val.role == Admin;
    return Response(200, Data(W.CommunityDetails(isAdmin, me.Some?, c, community, trips, members)));
  }

  /** The page of communities is read into an array, and the loop annotates
      each element in place with the caller's membership and the head count. */
  method SummarizePage(db: Db, user: UserId, rows: seq<Row<Community>>) returns (page: seq<W.CommunitySummary>)
    ensures page == W.SummarizeAll(db.State(), user, rows)
  {
    var communities := new W.CommunitySummary[|rows|](i requires 0 <= i < |rows| => W.CommunitySummary(rows[i], false, 0));
    for i := 0 to communities.Length
      invariant forall j :: 0 <= j < i ==> communities[j] == W.Summarize(db.State(), user, rows[j])
      invariant forall j :: i <= j < communities.Length ==> communities[j].community == rows[j]
    {
      var c := Count(db.members, InCommunity(communities[i].community.id));
      var isMember := FindFirst(db.members, MemberOf(user, communities[i].community.id));
      communities[i] := communities[i].(isMember := isMember.Some?, memberCount := c);
    }
    ghost var st := db.State();
    assert communities[..] == W.SummarizeAll(st, user, rows);
    return communities[..];
  }

  method GetCommunityOverview(db: Db, user: Option<UserId>, page: Option<int>, limit: Option<int>)
    returns (resp: Response<seq<W.CommunitySummary>>)
    ensures resp == W.Overview(db.State(), user, page, limit)
  {
    if user.None? {
      return Response(401, Error(W.Unauthorized));
    }
    var p, l := page.GetOr(W.DefaultPage), limit.GetOr(W.DefaultLimit);
    if l < 0 || p * l < 0 {
      return Response(500, Thrown);
    }
    var communities := SummarizePage(db, user.value, Page(db.communities, p * l, l));
    return Response(200, Data(communities));
  }

  method UpdateCommunityById(db: Db, user: Option<UserId>, id: int, patch: CommunityPatch)
    returns (resp: Response<seq<Row<Community>>>)
    modifies db
    ensures Outcome(resp, db.State()) == W.UpdateCommunity(old(db.State()), user, id, patch)
  {
    if user.None? {
      return Response(401, Text(W.Unauthorized));
    }
    var updated := db.UpdateCommunities(id, patch);
    return Response(200, Data(updated));
  }

  method DeleteCommunity(db: Db, user: Option<UserId>, id: int) returns (resp: Response<seq<Row<Community>>>)
    modifies db
    ensures Outcome(resp, db.State()) == W.DeleteCommunity(old(db.State()), user, id)
  {
    if user.None? {
      return Response(401, Text(W.Unauthorized));
    }
    var deleted := db.DeleteCommunity(id);
    return Response(200, Data(deleted));
  }
}
