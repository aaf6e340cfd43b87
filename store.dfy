/** The relational store as the route handlers see it: one sequence of rows
    per table, read in storage order, and one serial counter that hands out
    primary keys. `Tables` is the value of the whole store; `Db` is the
    mutable store the handlers write to, one method per ORM statement. */
module Store {
  import opened Base

  type UserId = string

  /** Trip participant roles: "organizer" and "participant". */
  datatype TripRole = Organizer | Participant

  /** Community member roles ("member" is the column default). */
  datatype CommunityRole = Admin | Moderator | Member

  /** Status of a join request ("pending" is the column default). */
  datatype RequestStatus = Pending | Approved | Rejected

  /** A trip location: `{lat, lng}` in the older trip routes, the body's
      string in the handler-based routes. */
  datatype Location = Point(lat: real, lng: real) | Encoded(text: string)

  datatype Trip = Trip(
    createdBy: UserId,
    name: string,
    description: string,
    startDate: string,
    startLocation: Location,
    isPrivate: bool,
    maxParticipants: int,
    communityId: Option<int>)

  datatype TripParticipant = TripParticipant(tripId: int, userId: UserId, role: TripRole)

  /** A row of `tripJoinRequest` or `communityJoinRequest`; `entityId` is the trip or community. */
  datatype JoinRequest = JoinRequest(userId: UserId, entityId: int, status: RequestStatus)

  /** A row of `tripInvite` or `communityInvite`; `expiresAt` in milliseconds. */
  datatype Invite = Invite(inviteCode: string, entityId: int, inviterId: UserId, expiresAt: int)

  datatype Community = Community(
    createdBy: UserId,
    name: string,
    description: string,
    isPrivate: bool,
    coverImage: Option<string>)

  datatype CommunityMember = CommunityMember(communityId: int, userId: UserId, role: CommunityRole)

  datatype User = User(id: UserId, username: string, email: string, hashedPassword: Option<string>)

  datatype Session = Session(id: string, userId: UserId)

  /** The fields a community update may set; `None` leaves a column as it is. */
  datatype CommunityPatch = CommunityPatch(
    name: Option<string>,
    description: Option<string>,
    isPrivate: Option<bool>,
    coverImage: Option<string>)

  datatype Tables = Tables(
    users: seq<User>,
    sessions: seq<Session>,
    trips: seq<Row<Trip>>,
    participants: seq<Row<TripParticipant>>,
    tripJoinRequests: seq<Row<JoinRequest>>,
    tripInvites: seq<Row<Invite>>,
    communities: seq<Row<Community>>,
    members: seq<Row<CommunityMember>>,
    communityJoinRequests: seq<Row<JoinRequest>>,
    communityInvites: seq<Row<Invite>>,
    nextId: int)
  {
    /** Every serial table has ascending keys below the counter. */
    ghost predicate Valid() {
      && WellKeyed(trips, nextId)
      && WellKeyed(participants, nextId)
      && WellKeyed(tripJoinRequests, nextId)
      && WellKeyed(tripInvites, nextId)
      && WellKeyed(communities, nextId)
      && WellKeyed(members, nextId)
      && WellKeyed(communityJoinRequests, nextId)
      && WellKeyed(communityInvites, nextId)
    }

    function AddTrip(t: Trip): (r: Tables)
      ensures Valid() ==> r.Valid()
    {
      AppendWellKeyed(trips, nextId, t);
      this.(trips := trips + [Row(nextId, t)], nextId := nextId + 1)
    }

    function AddParticipant(p: TripParticipant): (r: Tables)
      ensures Valid() ==> r.Valid()
    {
      AppendWellKeyed(participants, nextId, p);
      this.(participants := participants + [Row(nextId, p)], nextId := nextId + 1)
    }

    function AddTripJoinRequest(j: JoinRequest): (r: Tables)
      ensures Valid() ==> r.Valid()
    {
      AppendWellKeyed(tripJoinRequests, nextId, j);
      this.(tripJoinRequests := tripJoinRequests + [Row(nextId, j)], nextId := nextId + 1)
    }

    function AddTripInvite(i: Invite): (r: Tables)
      ensures Valid() ==> r.Valid()
    {
      AppendWellKeyed(tripInvites, nextId, i);
      this.(tripInvites := tripInvites + [Row(nextId, i)], nextId := nextId + 1)
    }

    function AddCommunity(c: Community): (r: Tables)
      ensures Valid() ==> r.Valid()
    {
      AppendWellKeyed(communities, nextId, c);
      this.(communities := communities + [Row(nextId, c)], nextId := nextId + 1)
    }

    function AddMember(m: CommunityMember): (r: Tables)
      ensures Valid() ==> r.Valid()
    {
      AppendWellKeyed(members, nextId, m);
      this.(members := members + [Row(nextId, m)], nextId := nextId + 1)
    }

    function AddCommunityJoinRequest(j: JoinRequest): (r: Tables)
      ensures Valid() ==> r.Valid()
    {
      AppendWellKeyed(communityJoinRequests, nextId, j);
      this.(communityJoinRequests := communityJoinRequests + [Row(nextId, j)], nextId := nextId + 1)
    }

    function AddCommunityInvite(i: Invite): (r: Tables)
      ensures Valid() ==> r.Valid()
    {
      AppendWellKeyed(communityInvites, nextId, i);
      this.(communityInvites := communityInvites + [Row(nextId, i)], nextId := nextId + 1)
    }
  }

  /** A handler's response together with the store it leaves behind. */
  datatype Outcome<T> = Outcome(response: Response<T>, state: Tables)

  /** A refusal: the response, and the store left as it was. */
  function Fail<T>(s: Tables, status: int, body: Body<T>): Outcome<T> {
    Outcome(Response(status, body), s)
  }

  // Row predicates: the `where` clauses of the handlers' queries.

  function ParticipantOf(user: UserId, tripId: int): Row<TripParticipant> -> bool {
    (r: Row<TripParticipant>) => r.val.userId == user && r.val.tripId == tripId
  }

  function InTrip(tripId: int): Row<TripParticipant> -> bool {
    (r: Row<TripParticipant>) => r.val.tripId == tripId
  }

  function MemberOf(user: UserId, communityId: int): Row<CommunityMember> -> bool {
    (r: Row<CommunityMember>) => r.val.userId == user && r.val.communityId == communityId
  }

  function InCommunity(communityId: int): Row<CommunityMember> -> bool {
    (r: Row<CommunityMember>) => r.val.communityId == communityId
  }

  function TripsOfCommunity(communityId: int): Row<Trip> -> bool {
    (r: Row<Trip>) => r.val.communityId == Some(communityId)
  }

  function RequestOf(user: UserId, entityId: int): Row<JoinRequest> -> bool {
    (r: Row<JoinRequest>) => r.val.userId == user && r.val.entityId == entityId
  }

  function WithCode(code: string): Row<Invite> -> bool {
    (r: Row<Invite>) => r.val.inviteCode == code
  }

  function CreatedBy(user: UserId): Row<Trip> -> bool {
    (r: Row<Trip>) => r.val.createdBy == user
  }

  function OwnedTrip(id: int, user: UserId): Row<Trip> -> bool {
    (r: Row<Trip>) => r.id == id && r.val.createdBy == user
  }

  function OwnedCommunity(id: int, user: UserId): Row<Community> -> bool {
    (r: Row<Community>) => r.id == id && r.val.createdBy == user
  }

  function WithEmail(email: string): User -> bool {
    (u: User) => u.email == email
  }

  /** `update ... set status where id = requestId`: every row with that key
      takes the new status; no other row and no other column changes. */
  function SetStatus(rows: seq<Row<JoinRequest>>, id: int, status: RequestStatus): (r: seq<Row<JoinRequest>>)
    ensures |r| == |rows|
    ensures forall i :: 0 <= i < |r| ==> r[i].id == rows[i].id
    ensures forall i :: 0 <= i < |r| && rows[i].id != id ==> r[i] == rows[i]
    ensures forall i :: 0 <= i < |r| && rows[i].id == id ==>
      r[i].val.status == status && r[i].val.userId == rows[i].val.userId && r[i].val.entityId == rows[i].val.entityId
  {
    seq(|rows|, i requires 0 <= i < |rows| =>
      if rows[i].id == id then Row(id, rows[i].val.(status := status)) else rows[i])
  }

  function Patch(c: Community, p: CommunityPatch): Community {
    c.(name := p.name.GetOr(c.name),
       description := p.description.GetOr(c.description),
       isPrivate := p.isPrivate.GetOr(c.isPrivate),
       coverImage := if p.coverImage.Some? then p.coverImage else c.coverImage)
  }

  /** `update community set ... where id = id`. */
  function PatchCommunities(rows: seq<Row<Community>>, id: int, p: CommunityPatch): (r: seq<Row<Community>>)
    ensures |r| == |rows|
    ensures forall i :: 0 <= i < |r| ==> r[i].id == rows[i].id
    ensures forall i :: 0 <= i < |r| && rows[i].id != id ==> r[i] == rows[i]
    ensures forall i :: 0 <= i < |r| && rows[i].id == id ==> r[i].val == Patch(rows[i].val, p)
  {
    seq(|rows|, i requires 0 <= i < |rows| =>
      if rows[i].id == id then Row(id, Patch(rows[i].val, p)) else rows[i])
  }

  lemma SameKeysWellKeyed<T, U>(a: seq<Row<T>>, b: seq<Row<U>>, next: int)
    requires |a| == |b| && forall i :: 0 <= i < |a| ==> a[i].id == b[i].id
    ensures WellKeyed(a, next) ==> WellKeyed(b, next)
  {
  }

  const Empty := Tables([], [], [], [], [], [], [], [], [], [], 1)

  /** The store. Each method is one statement of the ORM and states the
      whole new store as a function of the old one. */
  class Db {
    var users: seq<User>
    var sessions: seq<Session>
    var trips: seq<Row<Trip>>
    var participants: seq<Row<TripParticipant>>
    var tripJoinRequests: seq<Row<JoinRequest>>
    var tripInvites: seq<Row<Invite>>
    var communities: seq<Row<Community>>
    var members: seq<Row<CommunityMember>>
    var communityJoinRequests: seq<Row<JoinRequest>>
    var communityInvites: seq<Row<Invite>>
    var nextId: int

    function State(): Tables
      reads this
    {
      Tables(users, sessions, trips, participants, tripJoinRequests, tripInvites,
             communities, members, communityJoinRequests, communityInvites, nextId)
    }

    constructor ()
      ensures State() == Empty && State().Valid()
    {
      users, sessions := [], [];
      trips, participants, tripJoinRequests, tripInvites := [], [], [], [];
      communities, members, communityJoinRequests, communityInvites := [], [], [], [];
      nextId := 1;
    }

    method InsertUser(u: User)
      modifies this
      ensures State() == old(State()).(users := old(users) + [u])
    {
      users := users + [u];
    }

    method InsertSession(s: Session)
      modifies this
      ensures State() == old(State()).(sessions := old(sessions) + [s])
    {
      sessions := sessions + [s];
    }

    method InsertTrip(t: Trip) returns (row: Row<Trip>)
      modifies this
      ensures row == Row(old(nextId), t)
      ensures State() == old(State()).AddTrip(t)
    {
      row := Row(nextId, t);
      trips, nextId := trips + [row], nextId + 1;
    }

    method InsertParticipant(p: TripParticipant) returns (row: Row<TripParticipant>)
      modifies this
      ensures row == Row(old(nextId), p)
      ensures State() == old(State()).AddParticipant(p)
    {
      row := Row(nextId, p);
      participants, nextId := participants + [row], nextId + 1;
    }

    method InsertTripJoinRequest(j: JoinRequest) returns (row: Row<JoinRequest>)
      modifies this
      ensures row == Row(old(nextId), j)
      ensures State() == old(State()).AddTripJoinRequest(j)
    {
      row := Row(nextId, j);
      tripJoinRequests, nextId := tripJoinRequests + [row], nextId + 1;
    }

    method InsertTripInvite(i: Invite) returns (row: Row<Invite>)
      modifies this
      ensures row == Row(old(nextId), i)
      ensures State() == old(State()).AddTripInvite(i)
    {
      row := Row(nextId, i);
      tripInvites, nextId := tripInvites + [row], nextId + 1;
    }

    method InsertCommunity(c: Community) returns (row: Row<Community>)
      modifies this
      ensures row == Row(old(nextId), c)
      ensures State() == old(State()).AddCommunity(c)
    {
      row := Row(nextId, c);
      communities, nextId := communities + [row], nextId + 1;
    }

    method InsertMember(m: CommunityMember) returns (row: Row<CommunityMember>)
      modifies this
      ensures row == Row(old(nextId), m)
      ensures State() == old(State()).AddMember(m)
    {
      row := Row(nextId, m);
      members, nextId := members + [row], nextId + 1;
    }

    method InsertCommunityJoinRequest(j: JoinRequest) returns (row: Row<JoinRequest>)
      modifies this
      ensures row == Row(old(nextId), j)
      ensures State() == old(State()).AddCommunityJoinRequest(j)
    {
      row := Row(nextId, j);
      communityJoinRequests, nextId := communityJoinRequests + [row], nextId + 1;
    }

    method InsertCommunityInvite(i: Invite) returns (row: Row<Invite>)
      modifies this
      ensures row == Row(old(nextId), i)
      ensures State() == old(State()).AddCommunityInvite(i)
    {
      row := Row(nextId, i);
      communityInvites, nextId := communityInvites + [row], nextId + 1;
    }

    method DeleteTrips(where: Row<Trip> -> bool) returns (deleted: seq<Row<Trip>>)
      modifies this
      ensures deleted == Filter(old(trips), where)
      ensures State() == old(State()).(trips := Filter(old(trips), Not(where)))
    {
      deleted := Filter(trips, where);
      trips := Filter(trips, Not(where));
    }

    method DeleteParticipant(id: int) returns (deleted: seq<Row<TripParticipant>>)
      modifies this
      ensures deleted == Filter(old(participants), ById(id))
      ensures State() == old(State()).(participants := Filter(old(participants), Not(ById(id))))
    {
      deleted := Filter(participants, ById(id));
      participants := Filter(participants, Not(ById(id)));
    }

    method DeleteMember(id: int) returns (deleted: seq<Row<CommunityMember>>)
      modifies this
      ensures deleted == Filter(old(members), ById(id))
      ensures State() == old(State()).(members := Filter(old(members), Not(ById(id))))
    {
      deleted := Filter(members, ById(id));
      members := Filter(members, Not(ById(id)));
    }

    method DeleteCommunity(id: int) returns (deleted: seq<Row<Community>>)
      modifies this
      ensures deleted == Filter(old(communities), ById(id))
      ensures State() == old(State()).(communities := Filter(old(communities), Not(ById(id))))
    {
      deleted := Filter(communities, ById(id));
      communities := Filter(communities, Not(ById(id)));
    }

    method SetTripJoinRequestStatus(id: int, status: RequestStatus)
      modifies this
      ensures State() == old(State()).(tripJoinRequests := SetStatus(old(tripJoinRequests), id, status))
    {
      tripJoinRequests := SetStatus(tripJoinRequests, id, status);
    }

    method SetCommunityJoinRequestStatus(id: int, status: RequestStatus)
      modifies this
      ensures State() == old(State()).(communityJoinRequests := SetStatus(old(communityJoinRequests), id, status))
    {
      communityJoinRequests := SetStatus(communityJoinRequests, id, status);
    }

    method UpdateCommunities(id: int, p: CommunityPatch) returns (updated: seq<Row<Community>>)
      modifies this
      ensures updated == Filter(PatchCommunities(old(communities), id, p), ById(id))
      ensures State() == old(State()).(communities := PatchCommunities(old(communities), id, p))
    {
      communities := PatchCommunities(communities, id, p);
      updated := Filter(communities, ById(id));
    }
  }
}
