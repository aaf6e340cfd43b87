/** The older trip routes as imperative code over the store, each proved to
    produce the response and the store its function in `LegacyTrips`
    describes. The overview follows the intended behaviour; see
    `LegacyTrips.OverviewAsWritten` for the code as it stands. */
module LegacyTripRoutes {
  import opened Base
  import opened Store
  import L = LegacyTrips

  method ListTrips(db: Db, user: Option<UserId>) returns (resp: Response<seq<Row<Trip>>>)
    ensures resp == L.ListTrips(db.State(), user)
  {
    if user.None? {
      return Response(401, Error(L.Unauthorized));
    }
    var foundTrips := Filter(db.trips, CreatedBy(user.value));
    return Response(200, Data(foundTrips));
  }

  method CreateTrip(db: Db, user: Option<UserId>, body: L.LegacyTripBody) returns (resp: Response<seq<Row<Trip>>>)
    modifies db
    ensures Outcome(resp, db.State()) == L.CreateTrip(old(db.State()), user, body)
  {
    if user.None? {
      return Response(401, Text(L.Unauthorized));
    }
    var inserted := db.InsertTrip(L.NewTrip(user.value, body));
    return Response(200, Data([inserted]));
  }

  /** The first five trips are read into an array, and the loop attaches to
      each the first three of its participants and its head count. */
  method GetOverview(db: Db, user: Option<UserId>) returns (resp: Response<seq<L.TripPreview>>)
    ensures resp == L.Overview(db.State(), user)
  {
    if user.None? {
      return Response(401, Error(L.Unauthorized));
    }
    var rows := Page(db.trips, 0, L.OverviewSize);
    var trips := new L.TripPreview[|rows|](i requires 0 <= i < |rows| => L.TripPreview(rows[i], [], 0));
    for i := 0 to trips.Length
      invariant forall j :: 0 <= j < i ==> trips[j] == L.Preview(db.State(), rows[j])
      invariant forall j :: i <= j < trips.Length ==> trips[j].trip == rows[j]
    {
      var m := Page(Filter(db.participants, InTrip(trips[i].trip.id)), 0, L.ParticipantsShown);
      var c := Count(db.participants, InTrip(trips[i].trip.id));
      trips[i] := trips[i].(participants := m, participantCount := c);
    }
    ghost var st := db.State();
    assert trips[..] == seq(|rows|, i requires 0 <= i < |rows| => L.Preview(st, rows[i]));
    return Response(200, Data(trips[..]));
  }

  method JoinTrip(db: Db, user: Option<UserId>, id: int) returns (resp: Response<seq<Row<TripParticipant>>>)
    modifies db
    ensures Outcome(resp, db.State()) == L.JoinTrip(old(db.State()), user, id)
  {
    if user.None? {
      return Response(401, Text(L.Unauthorized));
    }
    var existingMember := FindFirst(db.participants, ParticipantOf(user.value, id));
    if existingMember.Some? {
      return Response(400, Error(L.AlreadyMember));
    }
    var inserted := db.InsertParticipant(TripParticipant(id, user.value, Participant));
    return Response(200, Data([inserted]));
  }

  method DeleteTrip(db: Db, user: Option<UserId>, id: int) returns (resp: Response<bool>)
    modifies db
    ensures Outcome(resp, db.State()) == L.DeleteTrip(old(db.State()), user, id)
  {
    if user.None? {
      return Response(401, Text(L.Unauthorized));
    }
    var _ := db.DeleteTrips(OwnedTrip(id, user.value));
    return Response(200, Data(false));
  }
}
