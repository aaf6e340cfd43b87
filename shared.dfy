/** The helpers of the shared library: the `.+@.+` email test, the random
    hex string, and the bounded-retry generator of invite codes. `Math.random`
    is replaced by a supplied stream of hex digits, and whether a store
    lookup throws by a supplied oracle. */
module Shared {
  import opened Base
  import opened Store

  // ---------------------------------------------------------------------
  // isValidEmail

  /** Characters `.` does not match in a JavaScript regular expression
      without the `s` flag. */
  predicate IsLineTerminator(c: char) {
    c == '\n' || c == '\r' || c == '\U{2028}' || c == '\U{2029}'
  }

  predicate Dot(c: char) {
    !IsLineTerminator(c)
  }

  /** The meaning of the unanchored pattern `.+@.+`: some substring
      `s[i..k]` is a non-empty run of `.`, an '@' at `j`, and another
      non-empty run of `.`. */
  ghost predicate RegexMatches(s: string) {
    exists i, j, k :: 0 <= i < j && j + 1 < k <= |s| && s[j] == '@' &&
      DotsBefore(s, i, j) && DotsAfter(s, j, k)
  }

  /** `s[a..b]` is a run of `.`. */
  ghost predicate DotsBefore(s: string, a: int, b: int)
    requires 0 <= a <= b <= |s|
  {
    forall m :: a <= m < b ==> Dot(s[m])
  }

  /** `s[a+1..b]` is a run of `.`. */
  ghost predicate DotsAfter(s: string, a: int, b: int)
    requires 0 <= a < b <= |s|
  {
    forall m :: a < m < b ==> Dot(s[m])
  }

  /** An '@' at `m` with a `.` character on either side. */
  predicate AtBetweenDots(s: string, m: int) {
    0 < m && m + 1 < |s| && s[m] == '@' && Dot(s[m - 1]) && Dot(s[m + 1])
  }

  function AtFrom(s: string, j: nat): (b: bool)
    ensures b <==> exists m :: j <= m && AtBetweenDots(s, m)
    decreases |s| - j
  {
    if j + 1 >= |s| then false
    else AtBetweenDots(s, j) || AtFrom(s, j + 1)
  }

  function IsValidEmail(email: string): bool {
    AtFrom(email, 0)
  }

  /** The scan agrees with the regular expression, in both directions. */
  lemma IsValidEmailMatchesRegex(s: string)
    ensures IsValidEmail(s) <==> RegexMatches(s)
  {
    if IsValidEmail(s) {
      var m :| 0 <= m && AtBetweenDots(s, m);
      assert DotsBefore(s, m - 1, m) && DotsAfter(s, m, m + 2);
      assert RegexMatches(s);
    }
    if RegexMatches(s) {
      var i, j, k :| 0 <= i < j && j + 1 < k <= |s| && s[j] == '@' &&
        DotsBefore(s, i, j) && DotsAfter(s, j, k);
      assert Dot(s[j - 1]) && Dot(s[j + 1]);
      assert AtBetweenDots(s, j);
    }
  }

  // ---------------------------------------------------------------------
  // genRanHex

  /** One `Math.floor(Math.random() * 16)`. */
  type HexDigit = d: int | 0 <= d < 16

  predicate IsHexChar(c: char) {
    '0' <= c <= '9' || 'a' <= c <= 'f'
  }

  predicate IsHexString(s: string) {
    forall k :: 0 <= k < |s| ==> IsHexChar(s[k])
  }

  /** `toString(16)` of one digit. */
  function HexChar(d: HexDigit): char {
    if d < 10 then ('0' as int + d) as char else ('a' as int + d - 10) as char
  }

  function HexValue(c: char): int
    requires IsHexChar(c)
  {
    if c <= '9' then c as int - '0' as int else c as int - 'a' as int + 10
  }

  lemma HexRoundTrip(d: HexDigit)
    ensures IsHexChar(HexChar(d)) && HexValue(HexChar(d)) == d
  {
  }

  /** `genRanHex(size)`; `draw(k)` is the k-th random digit of this call. */
  function GenRanHex(size: nat, draw: nat -> HexDigit): (s: string)
    ensures |s| == size
    ensures forall k :: 0 <= k < size ==> IsHexChar(s[k]) && HexValue(s[k]) == draw(k)
  {
    var s := seq(size, k requires 0 <= k < size => HexChar(draw(k)));
    forall k | 0 <= k < size ensures IsHexChar(s[k]) && HexValue(s[k]) == draw(k) {
      HexRoundTrip(draw(k));
    }
    s
  }

  /** Distinct draws give distinct strings: nothing of the randomness is lost. */
  lemma GenRanHexInjective(size: nat, d1: nat -> HexDigit, d2: nat -> HexDigit)
    requires GenRanHex(size, d1) == GenRanHex(size, d2)
    ensures forall k :: 0 <= k < size ==> d1(k) == d2(k)
  {
    forall k | 0 <= k < size ensures d1(k) == d2(k) {
      assert HexValue(GenRanHex(size, d1)[k]) == d1(k);
      assert HexValue(GenRanHex(size, d2)[k]) == d2(k);
    }
  }

  // ---------------------------------------------------------------------
  // generateUniqueInviteCode

  const InviteCodeLength: nat := 12
  const DefaultMaxAttempts: int := 10
  const GenerationFailed := "Failed to generate a unique invite code"

  /** The `entity` argument: which invite table is consulted. */
  datatype EntityKind = TripEntity | CommunityEntity

  /** The candidate of attempt `i`: `genRanHex(12)` over digits `12i .. 12i+11`. */
  function Candidate(rand: nat -> HexDigit, i: nat): (c: string)
    ensures |c| == InviteCodeLength && IsHexString(c)
  {
    GenRanHex(InviteCodeLength, (k: nat) => rand(InviteCodeLength * i + k))
  }

  /** `findFirst({ where: eq(inviteCode, code) })` found a row. */
  predicate Taken(rows: seq<Row<Invite>>, code: string) {
    FindFirst(rows, WithCode(code)).Some?
  }

  /** Attempt `i` looked up its candidate without error and found it taken. */
  predicate Collided(rows: seq<Row<Invite>>, rand: nat -> HexDigit, faults: nat -> bool, i: nat) {
    !faults(i) && Taken(rows, Candidate(rand, i))
  }

  /** How the loop ends, with the number of store lookups it made. */
  datatype Attempts =
    | Found(code: string, lookups: nat)
    | Exhausted(lookups: nat)
    | LookupFailed(lookups: nat)

  /** The loop from attempt `i` on; `i` lookups have been made before it. */
  function Attempt(rows: seq<Row<Invite>>, rand: nat -> HexDigit, faults: nat -> bool,
                   maxAttempts: int, i: nat): (o: Attempts)
    ensures i <= o.lookups
    ensures o.lookups <= i || o.lookups <= maxAttempts
    ensures o.Exhausted? ==> o.lookups == (if i < maxAttempts then maxAttempts else i)
    ensures o.Found? ==> i < o.lookups && o.code == Candidate(rand, o.lookups - 1) &&
                         !faults(o.lookups - 1) && !Taken(rows, o.code)
    ensures o.LookupFailed? ==> i < o.lookups && faults(o.lookups - 1)
    ensures forall j :: i <= j < o.lookups - (if o.Exhausted? then 0 else 1) ==>
              Collided(rows, rand, faults, j)
    decreases maxAttempts - i
  {
    if i >= maxAttempts then Exhausted(i)
    else if faults(i) then LookupFailed(i + 1)
    else if !Taken(rows, Candidate(rand, i)) then Found(Candidate(rand, i), i + 1)
    else Attempt(rows, rand, faults, maxAttempts, i + 1)
  }

  /** What `generateUniqueInviteCode` returns or throws. */
  function CodeResult(o: Attempts): Result<string, string> {
    if o.Found? then Ok(o.code) else Err(GenerationFailed)
  }

  /** The invite table an entity kind consults. */
  function InviteTable(s: Tables, entity: EntityKind): seq<Row<Invite>> {
    if entity == TripEntity then s.tripInvites else s.communityInvites
  }

  /** The generator. Each attempt draws a candidate and looks it up in the
      invite table of `entity`; the first candidate not found is returned.
      A lookup that throws leaves the loop at once, since the `catch` is
      outside it; exhaustion and a thrown lookup both throw the same error. */
  method GenerateUniqueInviteCode(db: Db, entity: EntityKind, rand: nat -> HexDigit,
                                  faults: nat -> bool, maxAttempts: int := DefaultMaxAttempts)
    returns (r: Result<string, string>, ghost lookups: nat)
    ensures entity == TripEntity ==>
      r == CodeResult(Attempt(db.tripInvites, rand, faults, maxAttempts, 0))
    ensures entity == CommunityEntity ==>
      r == CodeResult(Attempt(db.communityInvites, rand, faults, maxAttempts, 0))
    ensures lookups == Attempt(InviteTable(db.State(), entity), rand, faults, maxAttempts, 0).lookups
  {
    ghost var rows := InviteTable(db.State(), entity);
    var i: nat := 0;
    while i < maxAttempts
      invariant Attempt(rows, rand, faults, maxAttempts, i) == Attempt(rows, rand, faults, maxAttempts, 0)
      decreases maxAttempts - i
    {
      var inviteCode := Candidate(rand, i);
      if faults(i) {
        r, lookups := Err(GenerationFailed), i + 1;
        return;
      }
      var existing := if entity == TripEntity
        then FindFirst(db.tripInvites, WithCode(inviteCode))
        else FindFirst(db.communityInvites, WithCode(inviteCode));
      if existing.None? {
        r, lookups := Ok(inviteCode), i + 1;
        return;
      }
      i := i + 1;
    }
    r, lookups := Err(GenerationFailed), i;
  }

  /** When every candidate collides, the generator fails after exactly
      `maxAttempts` lookups (none when `maxAttempts <= 0`). */
  lemma {:induction false} AllCollideExhausts(rows: seq<Row<Invite>>, rand: nat -> HexDigit,
                                              faults: nat -> bool, maxAttempts: int, i: nat)
    requires forall j :: i <= j < maxAttempts ==> Collided(rows, rand, faults, j)
    ensures Attempt(rows, rand, faults, maxAttempts, i) ==
            Exhausted(if i < maxAttempts then maxAttempts else i)
    decreases maxAttempts - i
  {
    if i < maxAttempts {
      assert Collided(rows, rand, faults, i);
      AllCollideExhausts(rows, rand, faults, maxAttempts, i + 1);
    }
  }

  /** A store error at attempt `j` ends the generator there: no candidate
      after it is looked up. */
  lemma {:induction false} StoreErrorStopsAt(rows: seq<Row<Invite>>, rand: nat -> HexDigit,
                                             faults: nat -> bool, maxAttempts: int, i: nat, j: nat)
    requires i <= j < maxAttempts && faults(j)
    requires forall q :: i <= q < j ==> Collided(rows, rand, faults, q)
    ensures Attempt(rows, rand, faults, maxAttempts, i) == LookupFailed(j + 1)
    decreases j - i
  {
    if i < j {
      assert Collided(rows, rand, faults, i);
      StoreErrorStopsAt(rows, rand, faults, maxAttempts, i + 1, j);
    }
  }

  /** The first candidate not in the table is the one returned. */
  lemma {:induction false} FirstFreeReturned(rows: seq<Row<Invite>>, rand: nat -> HexDigit,
                                             faults: nat -> bool, maxAttempts: int, i: nat, j: nat)
    requires i <= j < maxAttempts && !faults(j) && !Taken(rows, Candidate(rand, j))
    requires forall q :: i <= q < j ==> Collided(rows, rand, faults, q)
    ensures Attempt(rows, rand, faults, maxAttempts, i) == Found(Candidate(rand, j), j + 1)
    decreases j - i
  {
    if i < j {
      assert Collided(rows, rand, faults, i);
      FirstFreeReturned(rows, rand, faults, maxAttempts, i + 1, j);
    }
  }

  /** No two invites of one table share a code. */
  ghost predicate CodesUnique(rows: seq<Row<Invite>>) {
    forall i, j :: 0 <= i < j < |rows| ==> rows[i].val.inviteCode != rows[j].val.inviteCode
  }

  /** Inserting an invite whose code the lookup did not find keeps the codes unique. */
  lemma InsertFreeCodeKeepsUnique(rows: seq<Row<Invite>>, id: int, inv: Invite)
    ensures CodesUnique(rows) && !Taken(rows, inv.inviteCode) ==> CodesUnique(rows + [Row(id, inv)])
  {
    if CodesUnique(rows) && !Taken(rows, inv.inviteCode) {
      var r := rows + [Row(id, inv)];
      forall i, j | 0 <= i < j < |r| ensures r[i].val.inviteCode != r[j].val.inviteCode {
        if j == |rows| {
          assert !WithCode(inv.inviteCode)(rows[i]);
        }
      }
    }
  }
}
