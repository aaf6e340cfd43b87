/** The trip route handlers as imperative code over the store: the queries
    and writes in the handlers' order, each handler proved to produce the
    response and the store its function in `TripWorkflow` describes. */
module TripHandlers {
  import opened Base
  import opened Store
  import opened Shared
  import W = TripWorkflow

  method GenerateInvite(db: Db, user: Option<UserId>, id: int, rand: nat -> HexDigit,
                        faults: nat -> bool, now: int)
    returns (resp: Response<Row<Invite>>)
    modifies db
    ensures Outcome(resp, db.State()) == W.GenerateInvite(old(db.State()), user, id, rand, faults, now)
  {
    if user.None? {
      return Response(401, Error(W.Unauthorized));
    }
    var code;
    ghost var lookups;
    code, lookups := GenerateUniqueInviteCode(db, TripEntity, rand, faults);
    if code.Err? {
      return Response(500, Error(W.CodeFailed));
    }
    var owned := FindFirst(db.trips, OwnedTrip(id, user.value));
    if owned.None? {
      return Response(403, Error(W.NotInviter));
    }
    var row := db.InsertTripInvite(Invite(code.value, id, user.value, now + W.InviteLifetime));
    return Response(200, Data(row));
  }

  method CreateTrip(db: Db, user: Option<UserId>, body: W.TripBody) returns (resp: Response<Row<Trip>>)
    modifies db
    ensures Outcome(resp, db.State()) == W.CreateTrip(old(db.State()), user, body)
  {
    if user.None? {
      return Response(401, Error(W.Unauthorized));
    }
    var inserted := db.InsertTrip(W.NewTrip(user.value, body));
    var _ := db.InsertParticipant(TripParticipant(inserted.id, user.value, Organizer));
    return Response(200, Data(inserted));
  }

  method GetTripDetails(db: Db, user: Option<UserId>, id: int) returns (resp: Response<W.TripDetails>)
    ensures resp == W.Details(db.State(), user, id)
  {
    if user.None? {
      return Response(401, Error(W.Unauthorized));
    }
    var found := FindFirst(db.trips, ById(id));
    var trip := if found.Some? then Some(db.trips[found.value]) else None;
    var participants := if found.Some? then Filter(db.participants, InTrip(id)) else [];
    var c := Count(db.participants, InTrip(id));
    var me := FindFirst(db.participants, ParticipantOf(user.value, id));
    var isAdmin := me.Some? && db.participants[me.value].val.role == Organizer;
    return Response(200, Data(W.TripDetails(isAdmin, me.Some?, c, trip, participants)));
  }

  /** The page of trips is read into an array, and the loop annotates each
      element in place with the caller's participation and the head count. */
  method SummarizePage(db: Db, user: UserId, rows: seq<Row<Trip>>) returns (page: seq<W.TripSummary>)
    ensures page == W.SummarizeAll(db.State(), user, rows)
  {
    var trips := new W.TripSummary[|rows|](i requires 0 <= i < |rows| => W.TripSummary(rows[i], false, 0));
    for i := 0 to trips.Length
      invariant forall j :: 0 <= j < i ==> trips[j] == W.Summarize(db.State(), user, rows[j])
      invariant forall j :: i <= j < trips.Length ==> trips[j].trip == rows[j]
    {
      var c := Count(db.participants, InTrip(trips[i].trip.id));
      var isParticipant := FindFirst(db.participants, ParticipantOf(user, trips[i].trip.id));
      trips[i] := trips[i].(isParticipant := isParticipant.Some?, participantCount := c);
    }
    ghost var st := db.State();
    assert trips[..] == W.SummarizeAll(st, user, rows);
    return trips[..];
  }

  method GetTripOverview(db: Db, user: Option<UserId>, page: Option<int>, limit: Option<int>)
    returns (resp: Response<seq<W.TripSummary>>)
    ensures resp == W.Overview(db.State(), user, page, limit)
  {
    if user.None? {
      return Response(401, Error(W.Unauthorized));
    }
    var p, l := page.GetOr(W.DefaultPage), limit.GetOr(W.DefaultLimit);
    if l < 0 || p * l < 0 {
      return Response(500, Thrown);
    }
    var trips := SummarizePage(db, user.value, Page(db.trips, p * l, l));
    return Response(200, Data(trips));
  }

  method CreateJoinRequest(db: Db, user: Option<UserId>, id: int)
    returns (resp: Response<W.JoinOutcome<TripParticipant>>)
    modifies db
    ensures Outcome(resp, db.State()) == W.CreateJoinRequest(old(db.State()), user, id)
  {
    if user.None? {
      return Response(401, Error(W.Unauthorized));
    }
    var existingMember := FindFirst(db.participants, ParticipantOf(user.value, id));
    if existingMember.Some? {
      return Response(400, Error(W.AlreadyParticipant));
    }
    var existingJoinRequest := FindFirst(db.tripJoinRequests, RequestOf(user.value, id));
    if existingJoinRequest.Some? {
      return Response(400, Error(W.AlreadyRequested));
    }
    var trip := FindFirst(db.trips, ById(id));
    if trip.None? {
      return Response(404, Error(W.TripNotFound));
    }
    if db.trips[trip.value].val.isPrivate {
      var request := db.InsertTripJoinRequest(JoinRequest(user.value, id, Pending));
      return Response(200, Data(W.Requested([request])));
    }
    var member := db.InsertParticipant(TripParticipant(id, user.value, Participant));
    return Response(200, Data(W.Joined([member])));
  }

  method AcceptJoinRequest(db: Db, user: Option<UserId>, id: int, requestId: int)
    returns (resp: Response<seq<Row<TripParticipant>>>)
    modifies db
    ensures Outcome(resp, db.State()) == W.AcceptJoinRequest(old(db.State()), user, id, requestId)
  {
    if user.None? {
      return Response(401, Error(W.Unauthorized));
    }
    var trip := FindFirst(db.trips, ById(id));
    if trip.None? || db.trips[trip.value].val.createdBy != user.value {
      return Response(401, Error(W.Unauthorized));
    }
    var joinRequest := FindFirst(db.tripJoinRequests, ById(requestId));
    if joinRequest.None? {
      return Response(404, Error(W.RequestNotFound));
    }
    var requester := db.tripJoinRequests[joinRequest.value].val.userId;
    var inserted := db.InsertParticipant(TripParticipant(id, requester, Participant));
    db.SetTripJoinRequestStatus(requestId, Approved);
    return Response(200, Data([inserted]));
  }

  method LeaveTrip(db: Db, user: Option<UserId>, id: int) returns (resp: Response<seq<Row<TripParticipant>>>)
    modifies db
    ensures Outcome(resp, db.State()) == W.LeaveTrip(old(db.State()), user, id)
  {
    if user.None? {
      return Response(401, Text(W.Unauthorized));
    }
    var existingMember := FindFirst(db.participants, ParticipantOf(user.value, id));
    if existingMember.None? {
      return Response(400, Error(W.NotParticipant));
    }
    var deleted := db.DeleteParticipant(db.participants[existingMember.value].id);
    return Response(200, Data(deleted));
  }
}
