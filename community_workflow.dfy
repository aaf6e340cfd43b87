/** The community handlers as functions of the store, in the same form as
    `TripWorkflow`. Communities differ from trips in three observable ways:
    membership is checked before the community is looked up, join requests
    are never deduplicated, and update and delete check no ownership. */
module CommunityWorkflow {
  import opened Base
  import opened Store
  import opened Shared

  const DefaultPage: int := 0
  const DefaultLimit: int := 5
  /** Seven days, in milliseconds. */
  const InviteLifetime: int := 1000 * 60 * 60 * 24 * 7

  const Unauthorized := "Unauthorized"
  const CodeFailed := "Failed to generate invite code"
  const NotInviter := "You are not authorized to create an invite"
  const AlreadyMember := "Already a member of this community"
  const CommunityNotFound := "Community not found"
  const RequestNotFound := "Join request not found"
  const NotMember := "Not a member of this community"

  /** The caller created the community with key `id`. */
  ghost predicate IsCreator(s: Tables, id: int, user: UserId) {
    exists k :: FirstMatch(s.communities, ById(id), k) && s.communities[k].val.createdBy == user
  }

  // ---------------------------------------------------------------------
  // generateInvite

  function GenerateInvite(s: Tables, user: Option<UserId>, id: int, rand: nat -> HexDigit,
                          faults: nat -> bool, now: int): (r: Outcome<Row<Invite>>)
    ensures r.response.status != 200 ==> r.state == s
    ensures user.None? ==> r.response == Response(401, Error(Unauthorized))
    // The code is drawn before ownership is looked at.
    ensures user.Some? && !Attempt(s.communityInvites, rand, faults, DefaultMaxAttempts, 0).Found? ==>
              r.response == Response(500, Error(CodeFailed))
    ensures user.Some? && Attempt(s.communityInvites, rand, faults, DefaultMaxAttempts, 0).Found? &&
            !Any(s.communities, OwnedCommunity(id, user.value)) ==>
              r.response == Response(403, Error(NotInviter))
    ensures r.response.status == 200 <==>
      user.Some? && Attempt(s.communityInvites, rand, faults, DefaultMaxAttempts, 0).Found? && Any(s.communities, OwnedCommunity(id, user.value))
    ensures r.response.status == 200 ==>
      && user.Some? && Any(s.communities, OwnedCommunity(id, user.value))
      && r.response.body.Data?
      && var row := r.response.body.data;
         && row.id == s.nextId
         // The invite carries the code the generator returned.
         && row.val.inviteCode == Attempt(s.communityInvites, rand, faults, DefaultMaxAttempts, 0).code
         && |row.val.inviteCode| == InviteCodeLength && IsHexString(row.val.inviteCode)
         && !Taken(s.communityInvites, row.val.inviteCode)
         && row.val.entityId == id && row.val.inviterId == user.value
         && row.val.expiresAt == now + InviteLifetime
         && r.state == s.AddCommunityInvite(row.val)
    ensures s.Valid() ==> r.state.Valid()
    ensures CodesUnique(s.communityInvites) ==> CodesUnique(r.state.communityInvites)
  {
    if user.None? then Fail(s, 401, Error(Unauthorized))
    else
      var o := Attempt(s.communityInvites, rand, faults, DefaultMaxAttempts, 0);
      if !o.Found? then Fail(s, 500, Error(CodeFailed))
      else if FindFirst(s.communities, OwnedCommunity(id, user.value)).None? then Fail(s, 403, Error(NotInviter))
      else
        var inv := Invite(o.code, id, user.value, now + InviteLifetime);
        InsertFreeCodeKeepsUnique(s.communityInvites, s.nextId, inv);
        Outcome(Response(200, Data(Row(s.nextId, inv))), s.AddCommunityInvite(inv))
  }

  /** A failed generation answers 500 to every authenticated caller, owner or not. */
  lemma GenerationFailureHidesOwnership(s: Tables, u1: UserId, u2: UserId, id: int,
                                        rand: nat -> HexDigit, faults: nat -> bool, now: int)
    requires !Attempt(s.communityInvites, rand, faults, DefaultMaxAttempts, 0).Found?
    ensures GenerateInvite(s, Some(u1), id, rand, faults, now) == GenerateInvite(s, Some(u2), id, rand, faults, now)
  {
  }

  // ---------------------------------------------------------------------
  // joinCommunity

  /** `{isPrivate: true, request}` or `{isPrivate: false, member}`. */
  datatype JoinOutcome = Requested(request: seq<Row<JoinRequest>>) | Joined(member: seq<Row<CommunityMember>>)

  function JoinCommunity(s: Tables, user: Option<UserId>, id: int): (r: Outcome<JoinOutcome>)
    ensures r.response.status != 200 ==> r.state == s
    ensures user.None? ==> r.response == Response(401, Text(Unauthorized))
    // Membership is checked first, so a member of a missing community gets 400, not 404.
    ensures user.Some? && Any(s.members, MemberOf(user.value, id)) ==>
              r.response == Response(400, Error(AlreadyMember))
    ensures user.Some? && !Any(s.members, MemberOf(user.value, id)) && !Any(s.communities, ById(id)) ==>
              r.response == Response(404, Error(CommunityNotFound))
    // Existing join requests are not consulted.
    ensures r.response.status == 200 <==>
      user.Some? && !Any(s.members, MemberOf(user.value, id)) && Any(s.communities, ById(id))
    ensures r.response.status == 200 ==>
      exists k :: FirstMatch(s.communities, ById(id), k) && (
        if s.communities[k].val.isPrivate then
          var j := JoinRequest(user.value, id, Pending);
          r.response.body == Data(Requested([Row(s.nextId, j)])) && r.state == s.AddCommunityJoinRequest(j)
        else
          var m := CommunityMember(id, user.value, Member);
          r.response.body == Data(Joined([Row(s.nextId, m)])) && r.state == s.AddMember(m))
    ensures s.Valid() ==> r.state.Valid()
  {
    if user.None? then Fail(s, 401, Text(Unauthorized))
    else if FindFirst(s.members, MemberOf(user.value, id)).Some? then Fail(s, 400, Error(AlreadyMember))
    else match FindFirst(s.communities, ById(id))
      case None => Fail(s, 404, Error(CommunityNotFound))
      case Some(k) =>
        if s.communities[k].val.isPrivate then
          var j := JoinRequest(user.value, id, Pending);
          Outcome(Response(200, Data(Requested([Row(s.nextId, j)]))), s.AddCommunityJoinRequest(j))
        else
          var m := CommunityMember(id, user.value, Member);
          Outcome(Response(200, Data(Joined([Row(s.nextId, m)]))), s.AddMember(m))
  }

  /** Asking twice to join a private community succeeds twice and leaves two
      requests more for the pair: nothing deduplicates them. */
  lemma JoinPrivateTwiceDuplicates(s: Tables, user: UserId, id: int, k: nat)
    requires FirstMatch(s.communities, ById(id), k) && s.communities[k].val.isPrivate
    requires !Any(s.members, MemberOf(user, id))
    ensures var s2 := JoinCommunity(s, Some(user), id).state;
            var r := JoinCommunity(s2, Some(user), id);
            && r.response.status == 200
            && Count(r.state.communityJoinRequests, RequestOf(user, id)) ==
               Count(s.communityJoinRequests, RequestOf(user, id)) + 2
  {
    FindFirstIsFirstMatch(s.communities, ById(id));
    var j := JoinRequest(user, id, Pending);
    var s2 := JoinCommunity(s, Some(user), id).state;
    assert s2 == s.AddCommunityJoinRequest(j);
    CountSnoc(s.communityJoinRequests, Row(s.nextId, j), RequestOf(user, id));
    assert FirstMatch(s2.communities, ById(id), k);
    FindFirstIsFirstMatch(s2.communities, ById(id));
    assert JoinCommunity(s2, Some(user), id).state == s2.AddCommunityJoinRequest(j);
    CountSnoc(s2.communityJoinRequests, Row(s2.nextId, j), RequestOf(user, id));
  }

  // ---------------------------------------------------------------------
  // acceptJoinRequest

  function AcceptJoinRequest(s: Tables, user: Option<UserId>, id: int, requestId: int)
    : (r: Outcome<seq<Row<CommunityMember>>>)
    ensures r.response.status != 200 ==> r.state == s
    ensures user.None? || !IsCreator(s, id, user.value) ==> r.response == Response(401, Error(Unauthorized))
    ensures user.Some? && IsCreator(s, id, user.value) && !Any(s.communityJoinRequests, ById(requestId)) ==>
              r.response == Response(404, Error(RequestNotFound))
    // Neither the request's community, nor its status, nor an existing membership is consulted.
    ensures r.response.status == 200 <==>
      user.Some? && IsCreator(s, id, user.value) && Any(s.communityJoinRequests, ById(requestId))
    ensures r.response.status == 200 ==>
      exists k :: FirstMatch(s.communityJoinRequests, ById(requestId), k) && (
        var m := CommunityMember(id, s.communityJoinRequests[k].val.userId, Member);
        && r.response.body == Data([Row(s.nextId, m)])
        && r.state == s.AddMember(m).(communityJoinRequests := SetStatus(s.communityJoinRequests, requestId, Approved)))
    ensures s.Valid() ==> r.state.Valid()
  {
    if user.None? then Fail(s, 401, Error(Unauthorized))
    else
      FindFirstIsFirstMatch(s.communities, ById(id));
      FindFirstIsFirstMatch(s.communityJoinRequests, ById(requestId));
      match FindFirst(s.communities, ById(id))
      case None => Fail(s, 401, Error(Unauthorized))
      case Some(c) =>
        if s.communities[c].val.createdBy != user.value then Fail(s, 401, Error(Unauthorized))
        else match FindFirst(s.communityJoinRequests, ById(requestId))
          case None => Fail(s, 404, Error(RequestNotFound))
          case Some(k) =>
            var m := CommunityMember(id, s.communityJoinRequests[k].val.userId, Member);
            var s1 := s.AddMember(m);
            var rows := SetStatus(s.communityJoinRequests, requestId, Approved);
            SameKeysWellKeyed(s1.communityJoinRequests, rows, s1.nextId);
            Outcome(Response(200, Data([Row(s.nextId, m)])), s1.(communityJoinRequests := rows))
  }

  // ---------------------------------------------------------------------
  // leaveCommunity

  function LeaveCommunity(s: Tables, user: Option<UserId>, id: int): (r: Outcome<seq<Row<CommunityMember>>>)
    ensures r.response.status != 200 ==> r.state == s
    ensures user.None? ==> r.response == Response(401, Text(Unauthorized))
    ensures user.Some? && !Any(s.members, MemberOf(user.value, id)) ==>
              r.response == Response(400, Error(NotMember))
    ensures r.response.status == 200 <==> user.Some? && Any(s.members, MemberOf(user.value, id))
    ensures r.response.status == 200 ==>
      exists k :: FirstMatch(s.members, MemberOf(user.value, id), k) && (
        var key := s.members[k].id;
        && r.response.body == Data(Filter(s.members, ById(key)))
        && r.state == s.(members := Filter(s.members, Not(ById(key))))
        // With distinct keys exactly the found row goes and every other row stays in place.
        && (s.Valid() ==> r.response.body == Data([s.members[k]]) &&
                          r.state.members == s.members[..k] + s.members[k + 1..]))
    ensures s.Valid() ==> r.state.Valid()
  {
    if user.None? then Fail(s, 401, Text(Unauthorized))
    else match FindFirst(s.members, MemberOf(user.value, id))
      case None => Fail(s, 400, Error(NotMember))
      case Some(k) =>
        var key := s.members[k].id;
        assert s.Valid() ==>
          && Filter(s.members, Not(ById(key))) == s.members[..k] + s.members[k + 1..]
          && Filter(s.members, ById(key)) == [s.members[k]]
          && s.(members := Filter(s.members, Not(ById(key)))).Valid()
        by {
          if s.Valid() {
            DeleteByIdRemovesOne(s.members, k);
            SelectByIdFindsOne(s.members, k);
            FilterWellKeyed(s.members, s.nextId, Not(ById(key)));
          }
        }
        Outcome(Response(200, Data(Filter(s.members, ById(key)))),
                s.(members := Filter(s.members, Not(ById(key)))))
  }

  // ---------------------------------------------------------------------
  // createCommunity

  /** The body of `POST /community`; absent optional fields are `None`. */
  datatype CommunityBody = CommunityBody(
    name: string,
    description: string,
    isPrivate: Option<bool>,
    coverImage: Option<string>)

  function NewCommunity(user: UserId, body: CommunityBody): Community {
    Community(user, body.name, body.description, body.isPrivate.GetOr(false), body.coverImage)
  }

  function CreateCommunity(s: Tables, user: Option<UserId>, body: CommunityBody): (r: Outcome<Row<Community>>)
    ensures user.None? ==> r == Fail(s, 401, Text(Unauthorized))
    ensures user.Some? ==>
      && r.response.status == 200 && r.response.body.Data?
      && var row := r.response.body.data;
         && row.id == s.nextId
         && row.val.createdBy == user.value
         && row.val.name == body.name && row.val.description == body.description
         && row.val.isPrivate == (body.isPrivate == Some(true))
         && row.val.coverImage == body.coverImage
         && r.state == s.AddCommunity(row.val).AddMember(CommunityMember(row.id, user.value, Admin))
    ensures s.Valid() ==> r.state.Valid()
  {
    if user.None? then Fail(s, 401, Text(Unauthorized))
    else
      var c := NewCommunity(user.value, body);
      Outcome(Response(200, Data(Row(s.nextId, c))),
              s.AddCommunity(c).AddMember(CommunityMember(s.nextId, user.value, Admin)))
  }

  // ---------------------------------------------------------------------
  // getCommunityById

  datatype CommunityDetails = CommunityDetails(
    isAdmin: bool,
    isMember: bool,
    memberCount: nat,
    community: Option<Row<Community>>,
    trips: seq<Row<Trip>>,
    members: seq<Row<CommunityMember>>)

  function Details(s: Tables, user: Option<UserId>, id: int): (r: Response<CommunityDetails>)
    ensures user.None? ==> r == Response(401, Text(Unauthorized))
    ensures user.Some? ==>
      && r.status == 200 && r.body.Data?
      && var d := r.body.data;
         && (d.isMember <==> Any(s.members, MemberOf(user.value, id)))
         && (d.isAdmin <==> exists k :: FirstMatch(s.members, MemberOf(user.value, id), k) &&
                                         s.members[k].val.role == Admin)
         && d.memberCount == Count(s.members, InCommunity(id))
         && (d.community.Some? <==> Any(s.communities, ById(id)))
         && (d.community.Some? ==> d.community.value.id == id && d.memberCount == |d.members|)
         && (forall i :: 0 <= i < |d.members| ==> d.members[i].val.communityId == id)
         && (forall i :: 0 <= i < |d.trips| ==> d.trips[i].val.communityId == Some(id))
  {
    if user.None? then Response(401, Text(Unauthorized))
    else
      var c := FindFirst(s.communities, ById(id));
      var me := FindFirst(s.members, MemberOf(user.value, id));
      FindFirstIsFirstMatch(s.communities, ById(id));
      FindFirstIsFirstMatch(s.members, MemberOf(user.value, id));
      Response(200, Data(CommunityDetails(
        me.Some? && s.members[me.value].val.role == Admin,
        me.Some?,
        Count(s.members, InCommunity(id)),
        if c.Some? then Some(s.communities[c.value]) else None,
        if c.Some? then Filter(s.trips, TripsOfCommunity(id)) else [],
        if c.Some? then Filter(s.members, InCommunity(id)) else [])))
  }

  /** A community's creator is its admin as soon as it exists. */
  lemma CreatorIsAdmin(s: Tables, user: UserId, body: CommunityBody)
    requires forall k :: 0 <= k < |s.members| ==> s.members[k].val.communityId != s.nextId
    ensures var d := Details(CreateCommunity(s, Some(user), body).state, Some(user), s.nextId).body.data;
            d.isAdmin && d.isMember && d.memberCount == 1
  {
    var s2 := CreateCommunity(s, Some(user), body).state;
    var k := |s.members|;
    assert s2.members == s.members + [Row(s.nextId + 1, CommunityMember(s.nextId, user, Admin))];
    assert FirstMatch(s2.members, MemberOf(user, s.nextId), k);
    CountSnoc(s.members, s2.members[k], InCommunity(s.nextId));
  }

  /** A non-member asking to join a private community that exists always
      gets a new pending request. */
  lemma JoinPrivateRequests(s: Tables, user: UserId, id: int, k: nat)
    requires FirstMatch(s.communities, ById(id), k) && s.communities[k].val.isPrivate
    requires !Any(s.members, MemberOf(user, id))
    ensures var j := JoinRequest(user, id, Pending);
            JoinCommunity(s, Some(user), id) ==
            Outcome(Response(200, Data(Requested([Row(s.nextId, j)]))), s.AddCommunityJoinRequest(j))
  {
    FindFirstIsFirstMatch(s.communities, ById(id));
  }

  /** The creator accepting a request that exists always succeeds. */
  lemma AcceptSucceeds(s: Tables, owner: UserId, id: int, requestId: int, c: nat, k: nat)
    requires FirstMatch(s.communities, ById(id), c) && s.communities[c].val.createdBy == owner
    requires FirstMatch(s.communityJoinRequests, ById(requestId), k)
    ensures var m := CommunityMember(id, s.communityJoinRequests[k].val.userId, Member);
            AcceptJoinRequest(s, Some(owner), id, requestId) ==
            Outcome(Response(200, Data([Row(s.nextId, m)])),
                    s.AddMember(m).(communityJoinRequests := SetStatus(s.communityJoinRequests, requestId, Approved)))
  {
    FindFirstIsFirstMatch(s.communities, ById(id));
    FindFirstIsFirstMatch(s.communityJoinRequests, ById(requestId));
  }

  /** The documented scenario: a private community's creator accepts the
      request a newcomer sends, and the newcomer becomes a plain member. */
  lemma RequestThenAccept(s: Tables, owner: UserId, newcomer: UserId, body: CommunityBody)
    requires s.Valid()
    requires body.isPrivate == Some(true)
    requires forall k :: 0 <= k < |s.members| ==> s.members[k].val.communityId != s.nextId
    requires owner != newcomer
    ensures
      var id := s.nextId;
      var s1 := CreateCommunity(s, Some(owner), body).state;
      var r2 := JoinCommunity(s1, Some(newcomer), id);
      var requestId := s1.nextId;
      var r3 := AcceptJoinRequest(r2.state, Some(owner), id, requestId);
      && r2.response == Response(200, Data(Requested([Row(requestId, JoinRequest(newcomer, id, Pending))])))
      && r3.response.status == 200
      && Details(r3.state, Some(newcomer), id).body.data.isMember
      && !Details(r3.state, Some(newcomer), id).body.data.isAdmin
      && Details(r3.state, Some(newcomer), id).body.data.memberCount == 2
      && r3.state.communityJoinRequests[|s.communityJoinRequests|].val.status == Approved
  {
    var id := s.nextId;
    var c := NewCommunity(owner, body);
    var s1 := s.AddCommunity(c).AddMember(CommunityMember(id, owner, Admin));
    assert CreateCommunity(s, Some(owner), body).state == s1;
    var n := |s.communities|;
    AppendedIsFirst(s.communities, id, c);
    assert !Any(s1.members, MemberOf(newcomer, id)) by {
      forall j | 0 <= j < |s1.members| ensures !MemberOf(newcomer, id)(s1.members[j]) {
        if j < |s.members| {
          assert s1.members[j] == s.members[j];
        }
      }
    }
    var j := JoinRequest(newcomer, id, Pending);
    JoinPrivateRequests(s1, newcomer, id, n);
    var s2 := s1.AddCommunityJoinRequest(j);
    var requestId := s1.nextId;
    var q := |s.communityJoinRequests|;
    AppendedIsFirst(s.communityJoinRequests, requestId, j);
    var mine := CommunityMember(id, newcomer, Member);
    AcceptSucceeds(s2, owner, id, requestId, n, q);
    var s3 := s2.AddMember(mine).(communityJoinRequests := SetStatus(s2.communityJoinRequests, requestId, Approved));
    assert s3.members == s.members + [Row(id + 1, CommunityMember(id, owner, Admin)), Row(s2.nextId, mine)];
    NewcomerIsPlainMember(s3, s.members, id, owner, newcomer, id + 1, s2.nextId);
  }

  /** A community with no members gains the owner's admin row and then the
      newcomer's member row: the newcomer is a member, not an admin, and
      the community has two members. */
  lemma NewcomerIsPlainMember(st: Tables, ms: seq<Row<CommunityMember>>, id: int, owner: UserId,
                              newcomer: UserId, a: int, b: int)
    requires forall k :: 0 <= k < |ms| ==> ms[k].val.communityId != id
    requires owner != newcomer
    requires st.members == ms + [Row(a, CommunityMember(id, owner, Admin)), Row(b, CommunityMember(id, newcomer, Member))]
    ensures var d := Details(st, Some(newcomer), id).body.data;
            d.isMember && !d.isAdmin && d.memberCount == 2
  {
    var one := ms + [Row(a, CommunityMember(id, owner, Admin))];
    var all := one + [Row(b, CommunityMember(id, newcomer, Member))];
    assert st.members == all;
    assert forall i :: 0 <= i < |ms| ==> all[i] == ms[i];
    assert FirstMatch(all, MemberOf(newcomer, id), |ms| + 1);
    FindFirstIsFirstMatch(all, MemberOf(newcomer, id));
    assert Count(ms, InCommunity(id)) == 0;
    CountSnoc(ms, Row(a, CommunityMember(id, owner, Admin)), InCommunity(id));
    CountSnoc(one, Row(b, CommunityMember(id, newcomer, Member)), InCommunity(id));
  }

  // ---------------------------------------------------------------------
  // getCommunityOverview

  /** One element of the overview: the community and the two fields the loop adds. */
  datatype CommunitySummary = CommunitySummary(community: Row<Community>, isMember: bool, memberCount: nat)

  function Summarize(s: Tables, user: UserId, c: Row<Community>): CommunitySummary {
    CommunitySummary(c, FindFirst(s.members, MemberOf(user, c.id)).Some?, Count(s.members, InCommunity(c.id)))
  }

  /** The loop of the overview: every row of the page, annotated. */
  function SummarizeAll(s: Tables, user: UserId, rows: seq<Row<Community>>): (r: seq<CommunitySummary>)
    ensures |r| == |rows|
  {
    seq(|rows|, i requires 0 <= i < |rows| => Summarize(s, user, rows[i]))
  }

  function Overview(s: Tables, user: Option<UserId>, page: Option<int>, limit: Option<int>)
    : (r: Response<seq<CommunitySummary>>)
    ensures user.None? ==> r == Response(401, Error(Unauthorized))
    ensures user.Some? ==>
      var p, l := page.GetOr(DefaultPage), limit.GetOr(DefaultLimit);
      && (r.status == 200 <==> l >= 0 && p * l >= 0)
      && (r.status != 200 ==> r == Response(500, Thrown))
      && (r.status == 200 ==>
           && r.body.Data?
           && |r.body.data| <= l
           && |r.body.data| == (if p * l >= |s.communities| then 0 else Min(l, |s.communities| - p * l))
           && forall i :: 0 <= i < |r.body.data| ==>
                && p * l + i < |s.communities|
                && r.body.data[i].community == s.communities[p * l + i]
                && (r.body.data[i].isMember <==> Any(s.members, MemberOf(user.value, s.communities[p * l + i].id)))
                && r.body.data[i].memberCount == Count(s.members, InCommunity(s.communities[p * l + i].id)))
  {
    if user.None? then Response(401, Error(Unauthorized))
    else
      var p, l := page.GetOr(DefaultPage), limit.GetOr(DefaultLimit);
      if l < 0 || p * l < 0 then Response(500, Thrown)
      else
        Response(200, Data(SummarizeAll(s, user.value, Page(s.communities, p * l, l))))
  }

  // ---------------------------------------------------------------------
  // updateCommunityById and deleteCommunity

  function UpdateCommunity(s: Tables, user: Option<UserId>, id: int, patch: CommunityPatch)
    : (r: Outcome<seq<Row<Community>>>)
    ensures user.None? ==> r == Fail(s, 401, Text(Unauthorized))
    ensures user.Some? ==>
      && r.response.status == 200
      && r.state == s.(communities := PatchCommunities(s.communities, id, patch))
      && r.response.body == Data(Filter(r.state.communities, ById(id)))
    ensures s.Valid() ==> r.state.Valid()
  {
    if user.None? then Fail(s, 401, Text(Unauthorized))
    else
      var rows := PatchCommunities(s.communities, id, patch);
      SameKeysWellKeyed(s.communities, rows, s.nextId);
      Outcome(Response(200, Data(Filter(rows, ById(id)))), s.(communities := rows))
  }

  function DeleteCommunity(s: Tables, user: Option<UserId>, id: int): (r: Outcome<seq<Row<Community>>>)
    ensures user.None? ==> r == Fail(s, 401, Text(Unauthorized))
    ensures user.Some? ==>
      && r.response.status == 200
      && r.response.body == Data(Filter(s.communities, ById(id)))
      && r.state == s.(communities := Filter(s.communities, Not(ById(id))))
    ensures s.Valid() ==> r.state.Valid()
  {
    if user.None? then Fail(s, 401, Text(Unauthorized))
    else
      assert s.Valid() ==> s.(communities := Filter(s.communities, Not(ById(id)))).Valid() by {
        if s.Valid() {
          FilterWellKeyed(s.communities, s.nextId, Not(ById(id)));
        }
      }
      Outcome(Response(200, Data(Filter(s.communities, ById(id)))),
              s.(communities := Filter(s.communities, Not(ById(id)))))
  }

  /** Update and delete do not look at who is asking: any two signed-in
      callers, the creator or anyone else, get the same outcome. */
  lemma UpdateAndDeleteIgnoreCaller(s: Tables, u1: UserId, u2: UserId, id: int, patch: CommunityPatch)
    ensures UpdateCommunity(s, Some(u1), id, patch) == UpdateCommunity(s, Some(u2), id, patch)
    ensures DeleteCommunity(s, Some(u1), id) == DeleteCommunity(s, Some(u2), id)
  {
  }

  /** Deleting removes every row with that key and keeps the others in order. */
  lemma DeleteRemovesExactlyTheRow(s: Tables, user: UserId, k: nat)
    requires s.Valid() && k < |s.communities|
    ensures var r := DeleteCommunity(s, Some(user), s.communities[k].id);
            && r.response.body == Data([s.communities[k]])
            && r.state.communities == s.communities[..k] + s.communities[k + 1..]
  {
    DeleteByIdRemovesOne(s.communities, k);
    SelectByIdFindsOne(s.communities, k);
  }
}
