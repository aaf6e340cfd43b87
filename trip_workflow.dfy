/** The trip handlers as functions of the store: each takes the store and
    the request and gives the response together with the new store. The
    guards run in the handlers' order, and a refused request leaves the store
    as it was. */
module TripWorkflow {
  import opened Base
  import opened Store
  import opened Shared

  const DefaultMaxParticipants: int := 5
  const DefaultPage: int := 0
  const DefaultLimit: int := 5
  /** Seven days, in milliseconds. */
  const InviteLifetime: int := 1000 * 60 * 60 * 24 * 7

  const Unauthorized := "Unauthorized"
  const CodeFailed := "Failed to generate invite code"
  const NotInviter := "You are not authorized to create an invite"
  const AlreadyParticipant := "Already a participant of this trip"
  const AlreadyRequested := "Join request already sent"
  const TripNotFound := "Trip not found"
  const RequestNotFound := "Join request not found"
  const NotParticipant := "Not a participant of this trip"

  /** The caller created the trip with key `id`. */
  ghost predicate IsCreator(s: Tables, id: int, user: UserId) {
    exists k :: FirstMatch(s.trips, ById(id), k) && s.trips[k].val.createdBy == user
  }

  // ---------------------------------------------------------------------
  // generateInvite

  function GenerateInvite(s: Tables, user: Option<UserId>, id: int, rand: nat -> HexDigit,
                          faults: nat -> bool, now: int): (r: Outcome<Row<Invite>>)
    ensures r.response.status != 200 ==> r.state == s
    ensures user.None? ==> r.response == Response(401, Error(Unauthorized))
    // The code is drawn before ownership is looked at.
    ensures user.Some? && !Attempt(s.tripInvites, rand, faults, DefaultMaxAttempts, 0).Found? ==>
              r.response == Response(500, Error(CodeFailed))
    ensures user.Some? && Attempt(s.tripInvites, rand, faults, DefaultMaxAttempts, 0).Found? &&
            !Any(s.trips, OwnedTrip(id, user.value)) ==>
              r.response == Response(403, Error(NotInviter))
    ensures r.response.status == 200 <==>
      user.Some? && Attempt(s.tripInvites, rand, faults, DefaultMaxAttempts, 0).Found? && Any(s.trips, OwnedTrip(id, user.value))
    ensures r.response.status == 200 ==>
      && user.Some? && Any(s.trips, OwnedTrip(id, user.value))
      && r.response.body.Data?
      && var row := r.response.body.data;
         && row.id == s.nextId
         // The invite carries the code the generator returned.
         && row.val.inviteCode == Attempt(s.tripInvites, rand, faults, DefaultMaxAttempts, 0).code
         && |row.val.inviteCode| == InviteCodeLength && IsHexString(row.val.inviteCode)
         && !Taken(s.tripInvites, row.val.inviteCode)
         && row.val.entityId == id && row.val.inviterId == user.value
         && row.val.expiresAt == now + InviteLifetime
         && r.state == s.AddTripInvite(row.val)
    ensures s.Valid() ==> r.state.Valid()
    ensures CodesUnique(s.tripInvites) ==> CodesUnique(r.state.tripInvites)
  {
    if user.None? then Fail(s, 401, Error(Unauthorized))
    else
      var o := Attempt(s.tripInvites, rand, faults, DefaultMaxAttempts, 0);
      if !o.Found? then Fail(s, 500, Error(CodeFailed))
      else if FindFirst(s.trips, OwnedTrip(id, user.value)).None? then Fail(s, 403, Error(NotInviter))
      else
        var inv := Invite(o.code, id, user.value, now + InviteLifetime);
        InsertFreeCodeKeepsUnique(s.tripInvites, s.nextId, inv);
        Outcome(Response(200, Data(Row(s.nextId, inv))), s.AddTripInvite(inv))
  }

  // ---------------------------------------------------------------------
  // createTrip

  /** The body of `POST /trip`; absent optional fields are `None`. */
  datatype TripBody = TripBody(
    name: string,
    description: string,
    startDate: string,
    startLocation: string,
    isPrivate: Option<bool>,
    maxParticipants: Option<int>,
    communityId: Option<int>)

  /** `maxParticipants || 5`: both an absent value and 0 are falsy. */
  function MaxParticipantsOr(m: Option<int>): (n: int)
    ensures n != 0
    ensures m.Some? && m.value != 0 ==> n == m.value
  {
    if m.None? || m.value == 0 then DefaultMaxParticipants else m.value
  }

  function NewTrip(user: UserId, body: TripBody): Trip {
    Trip(user, body.name, body.description, body.startDate, Encoded(body.startLocation),
         body.isPrivate.GetOr(false), MaxParticipantsOr(body.maxParticipants), body.communityId)
  }

  function CreateTrip(s: Tables, user: Option<UserId>, body: TripBody): (r: Outcome<Row<Trip>>)
    ensures user.None? ==> r == Fail(s, 401, Error(Unauthorized))
    ensures user.Some? ==>
      && r.response.status == 200 && r.response.body.Data?
      && var row := r.response.body.data;
         && row.id == s.nextId
         && row.val.createdBy == user.value
         && row.val.name == body.name && row.val.description == body.description
         && row.val.startDate == body.startDate
         && row.val.startLocation == Encoded(body.startLocation)
         // Public unless the body says otherwise; the join path depends on it.
         && row.val.isPrivate == body.isPrivate.GetOr(false)
         && row.val.communityId == body.communityId
         && row.val.maxParticipants ==
              (if body.maxParticipants.None? || body.maxParticipants == Some(0)
               then DefaultMaxParticipants else body.maxParticipants.value)
         && r.state == s.AddTrip(row.val).AddParticipant(TripParticipant(row.id, user.value, Organizer))
    ensures s.Valid() ==> r.state.Valid()
  {
    if user.None? then Fail(s, 401, Error(Unauthorized))
    else
      var t := NewTrip(user.value, body);
      var s1 := s.AddTrip(t);
      Outcome(Response(200, Data(Row(s.nextId, t))), s1.AddParticipant(TripParticipant(s.nextId, user.value, Organizer)))
  }

  // ---------------------------------------------------------------------
  // getTripDetails

  datatype TripDetails = TripDetails(
    isAdmin: bool,
    isParticipant: bool,
    memberCount: nat,
    trip: Option<Row<Trip>>,
    participants: seq<Row<TripParticipant>>)

  function Details(s: Tables, user: Option<UserId>, id: int): (r: Response<TripDetails>)
    ensures user.None? ==> r == Response(401, Error(Unauthorized))
    ensures user.Some? ==>
      && r.status == 200 && r.body.Data?
      && var d := r.body.data;
         && (d.isParticipant <==> Any(s.participants, ParticipantOf(user.value, id)))
         && (d.isAdmin <==> exists k :: FirstMatch(s.participants, ParticipantOf(user.value, id), k) &&
                                         s.participants[k].val.role == Organizer)
         && d.memberCount == Count(s.participants, InTrip(id))
         && (d.trip.Some? <==> Any(s.trips, ById(id)))
         && (d.trip.Some? ==> d.trip.value.id == id && d.memberCount == |d.participants|)
         && forall i :: 0 <= i < |d.participants| ==> d.participants[i].val.tripId == id
  {
    if user.None? then Response(401, Error(Unauthorized))
    else
      var t := FindFirst(s.trips, ById(id));
      var me := FindFirst(s.participants, ParticipantOf(user.value, id));
      var others := if t.Some? then Filter(s.participants, InTrip(id)) else [];
      FindFirstIsFirstMatch(s.trips, ById(id));
      FindFirstIsFirstMatch(s.participants, ParticipantOf(user.value, id));
      Response(200, Data(TripDetails(
        me.Some? && s.participants[me.value].val.role == Organizer,
        me.Some?,
        Count(s.participants, InTrip(id)),
        if t.Some? then Some(s.trips[t.value]) else None,
        others)))
  }

  /** A trip's creator is its admin as soon as the trip exists. */
  lemma CreatorIsAdmin(s: Tables, user: UserId, body: TripBody)
    requires forall k :: 0 <= k < |s.participants| ==> s.participants[k].val.tripId != s.nextId
    ensures var d := Details(CreateTrip(s, Some(user), body).state, Some(user), s.nextId).body.data;
            d.isAdmin && d.isParticipant && d.memberCount == 1
  {
    var s2 := CreateTrip(s, Some(user), body).state;
    var k := |s.participants|;
    assert s2.participants == s.participants + [Row(s.nextId + 1, TripParticipant(s.nextId, user, Organizer))];
    assert FirstMatch(s2.participants, ParticipantOf(user, s.nextId), k);
    CountSnoc(s.participants, s2.participants[k], InTrip(s.nextId));
  }

  // ---------------------------------------------------------------------
  // getTripOverview

  /** One element of the overview: the trip and the two fields the loop adds. */
  datatype TripSummary = TripSummary(trip: Row<Trip>, isParticipant: bool, participantCount: nat)

  function Summarize(s: Tables, user: UserId, t: Row<Trip>): TripSummary {
    TripSummary(t, FindFirst(s.participants, ParticipantOf(user, t.id)).Some?, Count(s.participants, InTrip(t.id)))
  }

  /** The loop of the overview: every row of the page, annotated. */
  function SummarizeAll(s: Tables, user: UserId, rows: seq<Row<Trip>>): (r: seq<TripSummary>)
    ensures |r| == |rows|
  {
    seq(|rows|, i requires 0 <= i < |rows| => Summarize(s, user, rows[i]))
  }

  /** `offset(page * limit).limit(limit)`. A negative offset or limit is
      taken to be refused by the store, and that error escapes the handler. */
  function Overview(s: Tables, user: Option<UserId>, page: Option<int>, limit: Option<int>)
    : (r: Response<seq<TripSummary>>)
    ensures user.None? ==> r == Response(401, Error(Unauthorized))
    ensures user.Some? ==>
      var p, l := page.GetOr(DefaultPage), limit.GetOr(DefaultLimit);
      && (r.status == 200 <==> l >= 0 && p * l >= 0)
      && (r.status != 200 ==> r == Response(500, Thrown))
      && (r.status == 200 ==>
           && r.body.Data?
           && |r.body.data| <= l
           && |r.body.data| == (if p * l >= |s.trips| then 0 else Min(l, |s.trips| - p * l))
           && forall i :: 0 <= i < |r.body.data| ==>
                && p * l + i < |s.trips|
                && r.body.data[i].trip == s.trips[p * l + i]
                && (r.body.data[i].isParticipant <==> Any(s.participants, ParticipantOf(user.value, s.trips[p * l + i].id)))
                && r.body.data[i].participantCount == Count(s.participants, InTrip(s.trips[p * l + i].id)))
  {
    if user.None? then Response(401, Error(Unauthorized))
    else
      var p, l := page.GetOr(DefaultPage), limit.GetOr(DefaultLimit);
      if l < 0 || p * l < 0 then Response(500, Thrown)
      else
        Response(200, Data(SummarizeAll(s, user.value, Page(s.trips, p * l, l))))
  }

  // ---------------------------------------------------------------------
  // createJoinRequest

  /** `{isPrivate: true, request}` or `{isPrivate: false, member}`. */
  datatype JoinOutcome<M> = Requested(request: seq<Row<JoinRequest>>) | Joined(member: seq<Row<M>>)

  function CreateJoinRequest(s: Tables, user: Option<UserId>, id: int): (r: Outcome<JoinOutcome<TripParticipant>>)
    ensures r.response.status != 200 ==> r.state == s
    ensures user.None? ==> r.response == Response(401, Error(Unauthorized))
    ensures user.Some? && Any(s.participants, ParticipantOf(user.value, id)) ==>
              r.response == Response(400, Error(AlreadyParticipant))
    // A request of any status blocks a new one.
    ensures user.Some? && !Any(s.participants, ParticipantOf(user.value, id)) &&
            Any(s.tripJoinRequests, RequestOf(user.value, id)) ==>
              r.response == Response(400, Error(AlreadyRequested))
    ensures user.Some? && !Any(s.participants, ParticipantOf(user.value, id)) &&
            !Any(s.tripJoinRequests, RequestOf(user.value, id)) && !Any(s.trips, ById(id)) ==>
              r.response == Response(404, Error(TripNotFound))
    ensures r.response.status == 200 <==>
      user.Some? && !Any(s.participants, ParticipantOf(user.value, id)) &&
      !Any(s.tripJoinRequests, RequestOf(user.value, id)) && Any(s.trips, ById(id))
    ensures r.response.status == 200 ==>
      exists k :: FirstMatch(s.trips, ById(id), k) && (
        if s.trips[k].val.isPrivate then
          var j := JoinRequest(user.value, id, Pending);
          r.response.body == Data(Requested([Row(s.nextId, j)])) && r.state == s.AddTripJoinRequest(j)
        else
          var m := TripParticipant(id, user.value, Participant);
          r.response.body == Data(Joined([Row(s.nextId, m)])) && r.state == s.AddParticipant(m))
    ensures s.Valid() ==> r.state.Valid()
  {
    if user.None? then Fail(s, 401, Error(Unauthorized))
    else if FindFirst(s.participants, ParticipantOf(user.value, id)).Some? then
      Fail(s, 400, Error(AlreadyParticipant))
    else if FindFirst(s.tripJoinRequests, RequestOf(user.value, id)).Some? then
      Fail(s, 400, Error(AlreadyRequested))
    else match FindFirst(s.trips, ById(id))
      case None => Fail(s, 404, Error(TripNotFound))
      case Some(k) =>
        if s.trips[k].val.isPrivate then
          var j := JoinRequest(user.value, id, Pending);
          Outcome(Response(200, Data(Requested([Row(s.nextId, j)]))), s.AddTripJoinRequest(j))
        else
          var m := TripParticipant(id, user.value, Participant);
          Outcome(Response(200, Data(Joined([Row(s.nextId, m)]))), s.AddParticipant(m))
  }

  /** No two join requests pair the same user with the same trip. */
  ghost predicate RequestsUnique(rows: seq<Row<JoinRequest>>) {
    forall i, j :: 0 <= i < j < |rows| ==>
      rows[i].val.userId != rows[j].val.userId || rows[i].val.entityId != rows[j].val.entityId
  }

  /** `createJoinRequest` never creates a second request for one user and trip. */
  lemma CreateJoinRequestKeepsRequestsUnique(s: Tables, user: Option<UserId>, id: int)
    requires RequestsUnique(s.tripJoinRequests)
    ensures RequestsUnique(CreateJoinRequest(s, user, id).state.tripJoinRequests)
  {
    var rows := CreateJoinRequest(s, user, id).state.tripJoinRequests;
    if rows != s.tripJoinRequests {
      forall i, j | 0 <= i < j < |rows|
        ensures rows[i].val.userId != rows[j].val.userId || rows[i].val.entityId != rows[j].val.entityId
      {
        if j == |s.tripJoinRequests| {
          assert !RequestOf(user.value, id)(s.tripJoinRequests[i]);
        }
      }
    }
  }

  /** A private trip's request adds one request for the pair and no participant;
      a public trip's join adds one participant and no request. */
  lemma JoinRequestCounts(s: Tables, user: UserId, id: int)
    requires CreateJoinRequest(s, Some(user), id).response.status == 200
    ensures var s2 := CreateJoinRequest(s, Some(user), id).state;
      && Count(s2.tripJoinRequests, RequestOf(user, id)) + Count(s2.participants, ParticipantOf(user, id)) == 1
      && (Count(s2.tripJoinRequests, RequestOf(user, id)) == 1 <==>
            exists k :: FirstMatch(s.trips, ById(id), k) && s.trips[k].val.isPrivate)
  {
    var r := CreateJoinRequest(s, Some(user), id);
    FindFirstIsFirstMatch(s.trips, ById(id));
    var k := FindFirst(s.trips, ById(id)).value;
    assert Count(s.tripJoinRequests, RequestOf(user, id)) == 0;
    assert Count(s.participants, ParticipantOf(user, id)) == 0;
    if s.trips[k].val.isPrivate {
      CountSnoc(s.tripJoinRequests, Row(s.nextId, JoinRequest(user, id, Pending)), RequestOf(user, id));
    } else {
      CountSnoc(s.participants, Row(s.nextId, TripParticipant(id, user, Participant)), ParticipantOf(user, id));
    }
  }

  /** Asking again after a successful request or join is refused and changes nothing. */
  lemma RepeatJoinRefused(s: Tables, user: UserId, id: int)
    requires CreateJoinRequest(s, Some(user), id).response.status == 200
    ensures var s2 := CreateJoinRequest(s, Some(user), id).state;
            var r := CreateJoinRequest(s2, Some(user), id);
            r.response.status == 400 && r.state == s2
  {
    var s2 := CreateJoinRequest(s, Some(user), id).state;
    if |s2.participants| > |s.participants| {
      assert ParticipantOf(user, id)(s2.participants[|s.participants|]);
    } else {
      assert RequestOf(user, id)(s2.tripJoinRequests[|s.tripJoinRequests|]);
    }
  }

  // ---------------------------------------------------------------------
  // acceptJoinRequest

  function AcceptJoinRequest(s: Tables, user: Option<UserId>, id: int, requestId: int)
    : (r: Outcome<seq<Row<TripParticipant>>>)
    ensures r.response.status != 200 ==> r.state == s
    ensures user.None? || !IsCreator(s, id, user.value) ==> r.response == Response(401, Error(Unauthorized))
    ensures user.Some? && IsCreator(s, id, user.value) && !Any(s.tripJoinRequests, ById(requestId)) ==>
              r.response == Response(404, Error(RequestNotFound))
    // Neither the request's trip, nor its status, nor an existing participation is consulted.
    ensures r.response.status == 200 <==>
      user.Some? && IsCreator(s, id, user.value) && Any(s.tripJoinRequests, ById(requestId))
    ensures r.response.status == 200 ==>
      exists k :: FirstMatch(s.tripJoinRequests, ById(requestId), k) && (
        var m := TripParticipant(id, s.tripJoinRequests[k].val.userId, Participant);
        && r.response.body == Data([Row(s.nextId, m)])
        && r.state == s.AddParticipant(m).(tripJoinRequests := SetStatus(s.tripJoinRequests, requestId, Approved)))
    ensures s.Valid() ==> r.state.Valid()
  {
    if user.None? then Fail(s, 401, Error(Unauthorized))
    else
      FindFirstIsFirstMatch(s.trips, ById(id));
      FindFirstIsFirstMatch(s.tripJoinRequests, ById(requestId));
      match FindFirst(s.trips, ById(id))
      case None => Fail(s, 401, Error(Unauthorized))
      case Some(t) =>
        if s.trips[t].val.createdBy != user.value then Fail(s, 401, Error(Unauthorized))
        else match FindFirst(s.tripJoinRequests, ById(requestId))
          case None => Fail(s, 404, Error(RequestNotFound))
          case Some(k) =>
            var m := TripParticipant(id, s.tripJoinRequests[k].val.userId, Participant);
            var s1 := s.AddParticipant(m);
            var rows := SetStatus(s.tripJoinRequests, requestId, Approved);
            SameKeysWellKeyed(s1.tripJoinRequests, rows, s1.nextId);
            Outcome(Response(200, Data([Row(s.nextId, m)])), s1.(tripJoinRequests := rows))
  }

  /** Accepting the same request twice succeeds twice and adds two participant
      rows for the requester. */
  lemma AcceptTwiceAddsTwoRows(s: Tables, user: UserId, id: int, requestId: int, k: nat)
    requires AcceptJoinRequest(s, Some(user), id, requestId).response.status == 200
    requires FirstMatch(s.tripJoinRequests, ById(requestId), k)
    ensures var s2 := AcceptJoinRequest(s, Some(user), id, requestId).state;
            var r := AcceptJoinRequest(s2, Some(user), id, requestId);
            var requester := s.tripJoinRequests[k].val.userId;
            && r.response.status == 200
            && Count(r.state.participants, ParticipantOf(requester, id)) ==
               Count(s.participants, ParticipantOf(requester, id)) + 2
  {
    var requester := s.tripJoinRequests[k].val.userId;
    var s2 := AcceptJoinRequest(s, Some(user), id, requestId).state;
    var t :| FirstMatch(s.trips, ById(id), t) && s.trips[t].val.createdBy == user;
    assert s2.trips == s.trips;
    assert FirstMatch(s2.trips, ById(id), t);
    assert s2.tripJoinRequests == SetStatus(s.tripJoinRequests, requestId, Approved);
    assert FirstMatch(s2.tripJoinRequests, ById(requestId), k);
    assert s2.tripJoinRequests[k].val.userId == requester;
    var m := TripParticipant(id, requester, Participant);
    CountSnoc(s.participants, Row(s.nextId, m), ParticipantOf(requester, id));
    var r := AcceptJoinRequest(s2, Some(user), id, requestId);
    assert r.state.participants == s2.participants + [Row(s2.nextId, m)];
    CountSnoc(s2.participants, Row(s2.nextId, m), ParticipantOf(requester, id));
  }

  // ---------------------------------------------------------------------
  // leaveTrip

  function LeaveTrip(s: Tables, user: Option<UserId>, id: int): (r: Outcome<seq<Row<TripParticipant>>>)
    ensures r.response.status != 200 ==> r.state == s
    ensures user.None? ==> r.response == Response(401, Text(Unauthorized))
    ensures user.Some? && !Any(s.participants, ParticipantOf(user.value, id)) ==>
              r.response == Response(400, Error(NotParticipant))
    ensures r.response.status == 200 <==> user.Some? && Any(s.participants, ParticipantOf(user.value, id))
    ensures r.response.status == 200 ==>
      exists k :: FirstMatch(s.participants, ParticipantOf(user.value, id), k) && (
        var key := s.participants[k].id;
        && r.response.body == Data(Filter(s.participants, ById(key)))
        && r.state == s.(participants := Filter(s.participants, Not(ById(key))))
        // With distinct keys exactly the found row goes and every other row stays in place.
        && (s.Valid() ==> r.response.body == Data([s.participants[k]]) &&
                          r.state.participants == s.participants[..k] + s.participants[k + 1..]))
    ensures s.Valid() ==> r.state.Valid()
  {
    if user.None? then Fail(s, 401, Text(Unauthorized))
    else match FindFirst(s.participants, ParticipantOf(user.value, id))
      case None => Fail(s, 400, Error(NotParticipant))
      case Some(k) =>
        var key := s.participants[k].id;
        assert s.Valid() ==>
          && Filter(s.participants, Not(ById(key))) == s.participants[..k] + s.participants[k + 1..]
          && Filter(s.participants, ById(key)) == [s.participants[k]]
          && s.(participants := Filter(s.participants, Not(ById(key)))).Valid()
        by {
          if s.Valid() {
            DeleteByIdRemovesOne(s.participants, k);
            SelectByIdFindsOne(s.participants, k);
            FilterWellKeyed(s.participants, s.nextId, Not(ById(key)));
          }
        }
        Outcome(Response(200, Data(Filter(s.participants, ById(key)))),
                s.(participants := Filter(s.participants, Not(ById(key)))))
  }

  /** Joining a public trip and leaving it again restores every table; only
      the serial counter has moved on. */
  lemma JoinThenLeaveRestores(s: Tables, user: UserId, id: int)
    requires s.Valid()
    requires CreateJoinRequest(s, Some(user), id).response.body.Data?
    requires CreateJoinRequest(s, Some(user), id).response.body.data.Joined?
    ensures LeaveTrip(CreateJoinRequest(s, Some(user), id).state, Some(user), id).state ==
            s.(nextId := s.nextId + 1)
  {
    var s2 := CreateJoinRequest(s, Some(user), id).state;
    var n := |s.participants|;
    var m := TripParticipant(id, user, Participant);
    assert s2 == s.AddParticipant(m);
    assert s2.participants == s.participants + [Row(s.nextId, m)];
    assert FirstMatch(s2.participants, ParticipantOf(user, id), n);
    LeaveRemovesFound(s2, user, id, n);
    assert s2.participants[..n] + s2.participants[n + 1..] == s.participants;
  }

  /** Leaving removes the caller's first participant row and nothing else. */
  lemma LeaveRemovesFound(s: Tables, user: UserId, id: int, k: nat)
    requires s.Valid() && FirstMatch(s.participants, ParticipantOf(user, id), k)
    ensures LeaveTrip(s, Some(user), id).state == s.(participants := s.participants[..k] + s.participants[k + 1..])
  {
    FindFirstIsFirstMatch(s.participants, ParticipantOf(user, id));
    assert FindFirst(s.participants, ParticipantOf(user, id)) == Some(k);
    assert IdsAscending(s.participants);
    DeleteByIdRemovesOne(s.participants, k);
  }
}
