/** Vocabulary shared by every module: optional values, results, rows of a
    table with a serial primary key, and the handful of queries the route
    handlers run against a table (first match, filter, count, offset/limit). */
module Base {

  datatype Option<T> = None | Some(value: T) {
    function GetOr(default: T): T {
      if Some? then value else default
    }
  }

  datatype Result<T, E> = Ok(value: T) | Err(error: E)

  /** One validation issue: the field it is about and its message. */
  datatype Issue = Issue(path: string, message: string)

  /** What a handler sends back: `{data, error: null}`, `{data: null, error:
      {message}}`, the bare `{status, body}` object some handlers return,
      `{error: {fields}}` for a rejected signup, or an exception (its
      message is not modelled). */
  datatype Body<T> =
    | Data(data: T)
    | Error(message: string)
    | Text(text: string)
    | Invalid(issues: seq<Issue>)
    | Thrown

  /** `set.status` (200 when the handler leaves it alone) and the body. */
  datatype Response<T> = Response(status: int, body: Body<T>)

  function Min(a: int, b: int): int {
    if a <= b then a else b
  }

  /** A row of a table whose primary key is a serial integer. */
  datatype Row<T> = Row(id: int, val: T)

  /** Row predicate: the row with primary key `id`. */
  function ById<T>(id: int): Row<T> -> bool {
    (r: Row<T>) => r.id == id
  }

  function Not<T>(p: T -> bool): T -> bool {
    x => !p(x)
  }

  /** Index of the first element satisfying `p`: what `findFirst` returns
      when the table is read in storage order. */
  function FindFirst<T>(s: seq<T>, p: T -> bool): (k: Option<nat>)
    ensures k.Some? ==> k.value < |s| && p(s[k.value])
    ensures k.Some? ==> forall j :: 0 <= j < k.value ==> !p(s[j])
    ensures k.None? <==> forall j :: 0 <= j < |s| ==> !p(s[j])
  {
    if |s| == 0 then None
    else if p(s[0]) then Some(0)
    else match FindFirst(s[1..], p)
      case None => None
      case Some(j) => Some(j + 1)
  }

  /** Some element satisfies `p`: `findFirst` returns a row. */
  ghost predicate Any<T>(s: seq<T>, p: T -> bool) {
    exists k :: 0 <= k < |s| && p(s[k])
  }

  /** `s[k]` is the first element satisfying `p`: the row `findFirst` returns. */
  ghost predicate FirstMatch<T>(s: seq<T>, p: T -> bool, k: int) {
    0 <= k < |s| && p(s[k]) && forall j :: 0 <= j < k ==> !p(s[j])
  }

  /** `findFirst` returns exactly the first match. */
  lemma FindFirstIsFirstMatch<T>(s: seq<T>, p: T -> bool)
    ensures forall k :: FirstMatch(s, p, k) <==> FindFirst(s, p) == Some(k)
    ensures FindFirst(s, p).None? <==> !Any(s, p)
  {
    forall k | FirstMatch(s, p, k) ensures FindFirst(s, p) == Some(k) {
      var f := FindFirst(s, p);
      assert f.Some?;
      assert !(f.value < k) && !(k < f.value);
    }
  }

  /** The elements satisfying `p`, in storage order: a `where` clause. */
  function Filter<T>(s: seq<T>, p: T -> bool): (r: seq<T>)
    ensures |r| <= |s|
    ensures forall i :: 0 <= i < |r| ==> r[i] in s && p(r[i])
    ensures forall j :: 0 <= j < |s| && p(s[j]) ==> s[j] in r
  {
    if |s| == 0 then [] else (if p(s[0]) then [s[0]] else []) + Filter(s[1..], p)
  }

  /** The head of a filter is the first match. */
  lemma {:induction false} FilterHeadIsFirstMatch<T>(s: seq<T>, p: T -> bool)
    requires |Filter(s, p)| > 0
    ensures exists k :: FirstMatch(s, p, k) && Filter(s, p)[0] == s[k]
  {
    FilterUnfold(s, p);
    if p(s[0]) {
      assert FirstMatch(s, p, 0);
    } else {
      FilterHeadIsFirstMatch(s[1..], p);
      var k :| FirstMatch(s[1..], p, k) && Filter(s[1..], p)[0] == s[1..][k];
      forall j | 0 <= j < k + 1 ensures !p(s[j]) {
        if j > 0 {
          assert s[j] == s[1..][j - 1];
        }
      }
      assert FirstMatch(s, p, k + 1);
    }
  }

  /** Reading the head of a filter is `findFirst`. */
  lemma FilterHeadIsFindFirst<T>(s: seq<T>, p: T -> bool)
    ensures |Filter(s, p)| > 0 <==> FindFirst(s, p).Some?
    ensures FindFirst(s, p).Some? ==> Filter(s, p)[0] == s[FindFirst(s, p).value]
  {
    FindFirstIsFirstMatch(s, p);
    if |Filter(s, p)| > 0 {
      FilterHeadIsFirstMatch(s, p);
    } else {
      assert Count(s, p) == 0;
    }
  }

  /** `select count()` under a `where` clause. */
  function Count<T>(s: seq<T>, p: T -> bool): (n: nat)
    ensures n <= |s|
    ensures n == 0 <==> forall j :: 0 <= j < |s| ==> !p(s[j])
  {
    var r := Filter(s, p);
    assert r != [] ==> r[0] in r;
    |r|
  }

  /** `offset(offset).limit(limit)` over a table read in storage order. */
  function Page<T>(s: seq<T>, offset: nat, limit: nat): (r: seq<T>)
    ensures |r| <= limit
    ensures |r| == if offset >= |s| then 0 else Min(limit, |s| - offset)
    ensures forall i :: 0 <= i < |r| ==> offset + i < |s| && r[i] == s[offset + i]
  {
    if offset >= |s| then []
    else if limit >= |s| - offset then s[offset..]
    else s[offset..offset + limit]
  }

  /** Serial keys grow in insertion order, so a table read in storage order
      has strictly ascending ids. */
  ghost predicate IdsAscending<T>(rows: seq<Row<T>>) {
    forall i, j :: 0 <= i < j < |rows| ==> rows[i].id < rows[j].id
  }

  ghost predicate IdsBelow<T>(rows: seq<Row<T>>, bound: int) {
    forall i :: 0 <= i < |rows| ==> rows[i].id < bound
  }

  /** A well-formed table: ascending keys, all drawn before `next`. */
  ghost predicate WellKeyed<T>(rows: seq<Row<T>>, next: int) {
    IdsAscending(rows) && IdsBelow(rows, next)
  }

  lemma {:induction false} FilterSnoc<T>(s: seq<T>, x: T, p: T -> bool)
    ensures Filter(s + [x], p) == Filter(s, p) + (if p(x) then [x] else [])
  {
    if |s| == 0 {
      assert s + [x] == [x];
      assert [x][1..] == [];
    } else {
      assert (s + [x])[0] == s[0];
      assert (s + [x])[1..] == s[1..] + [x];
      FilterSnoc(s[1..], x, p);
    }
  }

  /** Appending a row changes a count by one exactly when the row matches. */
  lemma CountSnoc<T>(s: seq<T>, x: T, p: T -> bool)
    ensures Count(s + [x], p) == Count(s, p) + (if p(x) then 1 else 0)
  {
    FilterSnoc(s, x, p);
  }

  /** Filtering keeps every element satisfying `p` when all of them do. */
  lemma {:induction false} FilterAll<T>(s: seq<T>, p: T -> bool)
    requires forall j :: 0 <= j < |s| ==> p(s[j])
    ensures Filter(s, p) == s
  {
    if |s| > 0 {
      FilterAll(s[1..], p);
    }
  }

  /** Two conditions that agree on every element filter alike. */
  lemma {:induction false} FilterSame<T>(s: seq<T>, p: T -> bool, q: T -> bool)
    requires forall j :: 0 <= j < |s| ==> p(s[j]) == q(s[j])
    ensures Filter(s, p) == Filter(s, q)
  {
    if |s| > 0 {
      FilterSame(s[1..], p, q);
    }
  }

  /** Filtering a well-keyed table gives a well-keyed table. */
  lemma {:induction false} FilterWellKeyed<T>(rows: seq<Row<T>>, next: int, p: Row<T> -> bool)
    requires WellKeyed(rows, next)
    ensures WellKeyed(Filter(rows, p), next)
  {
    if |rows| > 0 {
      FilterWellKeyed(rows[1..], next, p);
      var tail := Filter(rows[1..], p);
      forall j | 0 <= j < |tail| ensures rows[0].id < tail[j].id {
        assert tail[j] in rows[1..];
      }
    }
  }

  lemma TailAscending<T>(rows: seq<Row<T>>)
    requires IdsAscending(rows) && |rows| > 0
    ensures IdsAscending(rows[1..])
  {
    var tail := rows[1..];
    forall i, j | 0 <= i < j < |tail| ensures tail[i].id < tail[j].id {
      assert tail[i] == rows[i + 1] && tail[j] == rows[j + 1];
    }
  }

  lemma FilterUnfold<T>(s: seq<T>, p: T -> bool)
    requires |s| > 0
    ensures Filter(s, p) == (if p(s[0]) then [s[0]] else []) + Filter(s[1..], p)
  {
  }

  /** In a table with distinct keys, deleting by the key of row `k` removes
      exactly that row and keeps every other row in place. */
  lemma {:induction false} DeleteByIdRemovesOne<T>(rows: seq<Row<T>>, k: nat)
    requires IdsAscending(rows)
    requires k < |rows|
    ensures Filter(rows, Not(ById(rows[k].id))) == rows[..k] + rows[k + 1..]
  {
    var p := Not(ById<T>(rows[k].id));
    FilterUnfold(rows, p);
    if k == 0 {
      DeleteFirst(rows);
    } else {
      TailAscending(rows);
      var tail := rows[1..];
      assert tail[k - 1] == rows[k];
      DeleteByIdRemovesOne(tail, k - 1);
      assert p(rows[0]);
      ConsSplit(rows, k);
    }
  }

  /** In a table with distinct keys, selecting by the key of row `k` yields
      exactly that row. */
  lemma {:induction false} SelectByIdFindsOne<T>(rows: seq<Row<T>>, k: nat)
    requires IdsAscending(rows)
    requires k < |rows|
    ensures Filter(rows, ById(rows[k].id)) == [rows[k]]
  {
    var p := ById<T>(rows[k].id);
    FilterUnfold(rows, p);
    TailAscending(rows);
    var tail := rows[1..];
    if k == 0 {
      forall j | 0 <= j < |tail| ensures !p(tail[j]) {
        assert tail[j] == rows[j + 1];
      }
      assert Count(tail, p) == 0;
    } else {
      assert tail[k - 1] == rows[k];
      SelectByIdFindsOne(tail, k - 1);
    }
  }

  lemma ConsSplit<T>(rows: seq<T>, k: nat)
    requires 0 < k < |rows|
    ensures [rows[0]] + (rows[1..][..k - 1] + rows[1..][k..]) == rows[..k] + rows[k + 1..]
  {
    assert rows[1..][..k - 1] == rows[1..k];
    assert rows[1..][k..] == rows[k + 1..];
    assert rows[..k] == [rows[0]] + rows[1..k];
  }

  lemma DeleteFirst<T>(rows: seq<Row<T>>)
    requires IdsAscending(rows) && |rows| > 0
    ensures Filter(rows, Not(ById(rows[0].id))) == rows[1..]
  {
    var p := Not(ById<T>(rows[0].id));
    var tail := rows[1..];
    FilterUnfold(rows, p);
    forall j | 0 <= j < |tail| ensures p(tail[j]) {
      assert tail[j] == rows[j + 1];
    }
    FilterAll(tail, p);
  }

  /** A row appended under a fresh key is the first row with that key. */
  lemma AppendedIsFirst<T>(rows: seq<Row<T>>, next: int, x: T)
    requires IdsBelow(rows, next)
    ensures FirstMatch(rows + [Row(next, x)], ById(next), |rows|)
  {
    var r := rows + [Row(next, x)];
    forall j | 0 <= j < |rows| ensures !ById<T>(next)(r[j]) {
      assert r[j] == rows[j];
    }
  }

  /** Appending a row with a fresh key keeps the table well keyed. */
  lemma AppendWellKeyed<T>(rows: seq<Row<T>>, next: int, x: T)
    ensures WellKeyed(rows, next) ==> WellKeyed(rows + [Row(next, x)], next + 1)
  {
  }
}
