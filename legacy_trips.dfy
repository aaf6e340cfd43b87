/** The older trip routes of `src/routes/trip.ts` as functions of the store:
    list the caller's trips, create a trip, the top-five overview, the direct
    join and the owner-filtered delete. */
module LegacyTrips {
  import opened Base
  import opened Store

  const DefaultMaxParticipants: int := 5
  const OverviewSize: nat := 5
  const ParticipantsShown: nat := 3

  const Unauthorized := "Unauthorized"
  const AlreadyMember := "Already a member of this trip"

  // ---------------------------------------------------------------------
  // GET /

  function ListTrips(s: Tables, user: Option<UserId>): (r: Response<seq<Row<Trip>>>)
    ensures user.None? ==> r == Response(401, Error(Unauthorized))
    ensures user.Some? ==>
      && r.status == 200 && r.body.Data?
      && |r.body.data| == Count(s.trips, CreatedBy(user.value))
      && (forall i :: 0 <= i < |r.body.data| ==> r.body.data[i] in s.trips && r.body.data[i].val.createdBy == user.value)
      && (forall j :: 0 <= j < |s.trips| && s.trips[j].val.createdBy == user.value ==> s.trips[j] in r.body.data)
  {
    if user.None? then Response(401, Error(Unauthorized))
    else Response(200, Data(Filter(s.trips, CreatedBy(user.value))))
  }

  // ---------------------------------------------------------------------
  // POST /

  /** The body of `POST /trip`: `startLocation` is an optional `{lat, lng}`. */
  datatype LegacyTripBody = LegacyTripBody(
    name: string,
    description: string,
    startDate: string,
    maxParticipants: Option<int>,
    startLocation: Option<Location>,
    communityId: Option<int>)

  /** `{maxParticipants: m || 5, createdBy, startLocation: {lat: 0, lng: 0}, ...data}`:
      the body's own location, when present, overrides the default. */
  function NewTrip(user: UserId, body: LegacyTripBody): Trip {
    Trip(user, body.name, body.description, body.startDate,
         body.startLocation.GetOr(Point(0.0, 0.0)),
         false,
         if body.maxParticipants.None? || body.maxParticipants.value == 0
         then DefaultMaxParticipants else body.maxParticipants.value,
         body.communityId)
  }

  function CreateTrip(s: Tables, user: Option<UserId>, body: LegacyTripBody): (r: Outcome<seq<Row<Trip>>>)
    ensures user.None? ==> r == Fail(s, 401, Text(Unauthorized))
    ensures user.Some? ==>
      && r.response.status == 200 && r.response.body.Data? && |r.response.body.data| == 1
      && var row := r.response.body.data[0];
         && row.id == s.nextId
         && row.val.createdBy == user.value
         && row.val.maxParticipants ==
              (if body.maxParticipants.None? || body.maxParticipants == Some(0)
               then DefaultMaxParticipants else body.maxParticipants.value)
         && row.val.startLocation == (if body.startLocation.Some? then body.startLocation.value else Point(0.0, 0.0))
         // Only the trip is written: no participant row for the creator.
         && r.state == s.AddTrip(row.val)
    ensures s.Valid() ==> r.state.Valid()
  {
    if user.None? then Fail(s, 401, Text(Unauthorized))
    else
      var t := NewTrip(user.value, body);
      Outcome(Response(200, Data([Row(s.nextId, t)])), s.AddTrip(t))
  }

  // ---------------------------------------------------------------------
  // GET /overview

  /** One element of the overview: the trip, up to three of its participants
      and its head count. */
  datatype TripPreview = TripPreview(trip: Row<Trip>, participants: seq<Row<TripParticipant>>, participantCount: nat)

  /** The overview as written: the loop body names `tripParticipant` and
      `count`, which the file never imports, so the first iteration throws
      and the transaction fails. Only an empty trip table gets through. */
  function OverviewAsWritten(s: Tables, user: Option<UserId>): (r: Response<seq<TripPreview>>)
    ensures user.None? ==> r == Response(401, Error(Unauthorized))
    ensures user.Some? ==> (r.status == 200 <==> |s.trips| == 0)
    ensures r.status == 200 ==> r.body == Data([])
  {
    if user.None? then Response(401, Error(Unauthorized))
    else if |Page(s.trips, 0, OverviewSize)| > 0 then Response(500, Thrown)
    else Response(200, Data([]))
  }

  /** A single trip is enough to make the written overview fail. */
  lemma OverviewAsWrittenFailsOnAnyTrip(user: UserId, t: Trip)
    ensures OverviewAsWritten(Empty.AddTrip(t), Some(user)) == Response(500, Thrown)
  {
  }

  function Preview(s: Tables, t: Row<Trip>): TripPreview {
    TripPreview(t, Page(Filter(s.participants, InTrip(t.id)), 0, ParticipantsShown), Count(s.participants, InTrip(t.id)))
  }

  /** The overview as intended: at most five trips, each with at most three of
      its own participants and its full head count. */
  function Overview(s: Tables, user: Option<UserId>): (r: Response<seq<TripPreview>>)
    ensures user.None? ==> r == Response(401, Error(Unauthorized))
    ensures user.Some? ==>
      && r.status == 200 && r.body.Data?
      && |r.body.data| == Min(OverviewSize, |s.trips|)
      && forall i :: 0 <= i < |r.body.data| ==>
           var v := r.body.data[i];
           && v.trip == s.trips[i]
           && v.participantCount == Count(s.participants, InTrip(v.trip.id))
           && |v.participants| == Min(ParticipantsShown, v.participantCount)
           && forall j :: 0 <= j < |v.participants| ==>
                v.participants[j] in s.participants && v.participants[j].val.tripId == v.trip.id
  {
    if user.None? then Response(401, Error(Unauthorized))
    else
      var rows := Page(s.trips, 0, OverviewSize);
      Response(200, Data(seq(|rows|, i requires 0 <= i < |rows| => Preview(s, rows[i]))))
  }

  // ---------------------------------------------------------------------
  // POST /join/:id

  /** The join as written: the insert names `tripParticipant`, which the file
      never imports (the lookup before it goes through `db.query` and a
      callback parameter of that name, so it runs). Every join that passes
      the duplicate check throws before anything is written. */
  function JoinTripAsWritten(s: Tables, user: Option<UserId>, id: int): (r: Outcome<seq<Row<TripParticipant>>>)
    ensures r.state == s
    ensures r.response.status != 200
    ensures user.None? ==> r.response == Response(401, Text(Unauthorized))
    ensures user.Some? ==>
      r.response == (if Any(s.participants, ParticipantOf(user.value, id))
                     then Response(400, Error(AlreadyMember)) else Response(500, Thrown))
  {
    if user.None? then Fail(s, 401, Text(Unauthorized))
    else if FindFirst(s.participants, ParticipantOf(user.value, id)).Some? then Fail(s, 400, Error(AlreadyMember))
    else Fail(s, 500, Thrown)
  }

  /** No one can join a trip through the written route, not even into an
      empty store. */
  lemma JoinTripAsWrittenNeverJoins(user: UserId, id: int)
    ensures JoinTripAsWritten(Empty, Some(user), id) == Fail(Empty, 500, Thrown)
    ensures JoinTrip(Empty, Some(user), id).response.status == 200
  {
  }

  /** The join as intended: one participant row for the caller. */
  function JoinTrip(s: Tables, user: Option<UserId>, id: int): (r: Outcome<seq<Row<TripParticipant>>>)
    ensures r.response.status != 200 ==> r.state == s
    ensures user.None? ==> r.response == Response(401, Text(Unauthorized))
    ensures user.Some? && Any(s.participants, ParticipantOf(user.value, id)) ==>
              r.response == Response(400, Error(AlreadyMember))
    // Neither the trip's existence nor its visibility is consulted.
    ensures r.response.status == 200 <==> user.Some? && !Any(s.participants, ParticipantOf(user.value, id))
    ensures r.response.status == 200 ==>
      var m := TripParticipant(id, user.value, Participant);
      r.response.body == Data([Row(s.nextId, m)]) && r.state == s.AddParticipant(m)
    ensures s.Valid() ==> r.state.Valid()
  {
    if user.None? then Fail(s, 401, Text(Unauthorized))
    else if FindFirst(s.participants, ParticipantOf(user.value, id)).Some? then Fail(s, 400, Error(AlreadyMember))
    else
      var m := TripParticipant(id, user.value, Participant);
      Outcome(Response(200, Data([Row(s.nextId, m)])), s.AddParticipant(m))
  }

  /** Joining twice is refused the second time: the direct join keeps one
      participant row per user and trip. */
  lemma JoinTripTwiceRefused(s: Tables, user: UserId, id: int)
    requires !Any(s.participants, ParticipantOf(user, id))
    ensures var s2 := JoinTrip(s, Some(user), id).state;
            && Count(s2.participants, ParticipantOf(user, id)) == 1
            && JoinTrip(s2, Some(user), id) == Fail(s2, 400, Error(AlreadyMember))
  {
    var s2 := JoinTrip(s, Some(user), id).state;
    var row := Row(s.nextId, TripParticipant(id, user, Participant));
    assert s2.participants == s.participants + [row];
    CountSnoc(s.participants, row, ParticipantOf(user, id));
    assert ParticipantOf(user, id)(s2.participants[|s.participants|]);
  }

  // ---------------------------------------------------------------------
  // DELETE /:id

  /** The handler answers `set.status === 204`, which is false: the status
      is never set to 204. */
  function DeleteTrip(s: Tables, user: Option<UserId>, id: int): (r: Outcome<bool>)
    ensures user.None? ==> r == Fail(s, 401, Text(Unauthorized))
    ensures user.Some? ==>
      && r.response == Response(200, Data(false))
      && r.state == s.(trips := r.state.trips)
      && (forall i :: 0 <= i < |r.state.trips| ==> r.state.trips[i] in s.trips && !OwnedTrip(id, user.value)(r.state.trips[i]))
      && (forall j :: 0 <= j < |s.trips| && !OwnedTrip(id, user.value)(s.trips[j]) ==> s.trips[j] in r.state.trips)
    ensures s.Valid() ==> r.state.Valid()
  {
    if user.None? then Fail(s, 401, Text(Unauthorized))
    else
      var rows := Filter(s.trips, Not(OwnedTrip(id, user.value)));
      assert s.Valid() ==> s.(trips := rows).Valid() by {
        if s.Valid() {
          FilterWellKeyed(s.trips, s.nextId, Not(OwnedTrip(id, user.value)));
        }
      }
      Outcome(Response(200, Data(false)), s.(trips := rows))
  }

  /** Deleting a trip one did not create changes nothing. */
  lemma {:induction false} DeleteByNonOwnerChangesNothing(s: Tables, user: UserId, id: int)
    requires forall j :: 0 <= j < |s.trips| ==> !OwnedTrip(id, user)(s.trips[j])
    ensures DeleteTrip(s, Some(user), id).state == s
  {
    FilterAll(s.trips, Not(OwnedTrip(id, user)));
  }

  /** Deleting one's own trip removes exactly that row and keeps the others in order. */
  lemma DeleteByOwnerRemovesOne(s: Tables, user: UserId, k: nat)
    requires s.Valid() && k < |s.trips| && s.trips[k].val.createdBy == user
    ensures DeleteTrip(s, Some(user), s.trips[k].id).state.trips == s.trips[..k] + s.trips[k + 1..]
  {
    var id := s.trips[k].id;
    DeleteByIdRemovesOne(s.trips, k);
    FilterSame(s.trips, Not(OwnedTrip(id, user)), Not(ById(id)));
  }
}
