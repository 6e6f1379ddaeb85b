/** The two queries of critic/src/critic_sqlite/critic_data.rs: `next_contest`, which
    maps the single row of `next_contest.sql` to a `Contest`, and `top`, which turns a
    page number and a page size into a window of ranks and collects the rows of
    `top_criteria.sql` in order.

    The SQL of both queries is not part of this model: the engine's answer is a
    parameter (the first result row for `next_contest`, a `Query` function from the bound
    parameters to the result rows for `top`). */
module CriticData {
  import opened Sqlite
  import opened Dto

  /** The reads of the columns before `k` all succeed. */
  predicate ReadsBefore(row: seq<Value>, k: nat) {
    && (k > 0 ==> GetI32(row, 0).Ok?) && (k > 1 ==> GetString(row, 1).Ok?)
    && (k > 2 ==> GetF32(row, 2).Ok?) && (k > 3 ==> GetI32(row, 3).Ok?)
    && (k > 4 ==> GetString(row, 4).Ok?) && (k > 5 ==> GetF32(row, 5).Ok?)
    && (k > 6 ==> GetI32(row, 6).Ok?) && (k > 7 ==> GetI32(row, 7).Ok?)
    && (k > 8 ==> GetString(row, 8).Ok?) && (k > 9 ==> GetString(row, 9).Ok?)
  }

  /** `r.get::<_, i32>` of columns 0, 3, 6, 7, `f32` of 2 and 5, `String` of 1, 4, 8, 9,
      in that order; the first failing column is the error. */
  function ContestFromRow(row: seq<Value>): (r: Result<Contest>)
    ensures r.Ok? <==>
      && GetI32(row, 0).Ok? && GetString(row, 1).Ok? && GetF32(row, 2).Ok?
      && GetI32(row, 3).Ok? && GetString(row, 4).Ok? && GetF32(row, 5).Ok?
      && GetI32(row, 6).Ok? && GetI32(row, 7).Ok? && GetString(row, 8).Ok? && GetString(row, 9).Ok?
    ensures r.Ok? ==> r.value == Contest(
      Criterion(row[6].i, row[7].i, row[8].s, row[9].s),
      Contestant(row[0].i, row[1].s, GetF32(row, 2).value),
      Contestant(row[3].i, row[4].s, GetF32(row, 5).value))
    ensures GetI32(row, 0).Err? ==> r == Err(GetI32(row, 0).error)
    ensures ReadsBefore(row, 1) && GetString(row, 1).Err? ==> r == Err(GetString(row, 1).error)
    ensures ReadsBefore(row, 2) && GetF32(row, 2).Err? ==> r == Err(GetF32(row, 2).error)
    ensures ReadsBefore(row, 3) && GetI32(row, 3).Err? ==> r == Err(GetI32(row, 3).error)
    ensures ReadsBefore(row, 4) && GetString(row, 4).Err? ==> r == Err(GetString(row, 4).error)
    ensures ReadsBefore(row, 5) && GetF32(row, 5).Err? ==> r == Err(GetF32(row, 5).error)
    ensures ReadsBefore(row, 6) && GetI32(row, 6).Err? ==> r == Err(GetI32(row, 6).error)
    ensures ReadsBefore(row, 7) && GetI32(row, 7).Err? ==> r == Err(GetI32(row, 7).error)
    ensures ReadsBefore(row, 8) && GetString(row, 8).Err? ==> r == Err(GetString(row, 8).error)
    ensures ReadsBefore(row, 9) && GetString(row, 9).Err? ==> r == Err(GetString(row, 9).error)
  {
    var aId :- GetI32(row, 0);
    var aName :- GetString(row, 1);
    var aElo :- GetF32(row, 2);
    var bId :- GetI32(row, 3);
    var bName :- GetString(row, 4);
    var bElo :- GetF32(row, 5);
    var groupId :- GetI32(row, 6);
    var criterionId :- GetI32(row, 7);
    var criterionName :- GetString(row, 8);
    var groupName :- GetString(row, 9);
    Ok(Contest(
      Criterion(groupId, criterionId, criterionName, groupName),
      Contestant(aId, aName, aElo),
      Contestant(bId, bName, bElo)))
  }

  /** The row layout `next_contest` expects, for a given contest. */
  function ContestRow(c: Contest): (row: seq<Value>)
    ensures |row| == 10
  {
    [Integer(c.a.id), Text(c.a.name), Real(c.a.elo),
     Integer(c.b.id), Text(c.b.name), Real(c.b.elo),
     Integer(c.criterion.group), Integer(c.criterion.id), Text(c.criterion.name), Text(c.criterion.groupName)]
  }

  /** Every id of the contest fits the `i32` it is read into. */
  predicate ContestFitsI32(c: Contest) {
    IsI32(c.a.id) && IsI32(c.b.id) && IsI32(c.criterion.group) && IsI32(c.criterion.id)
  }

  /** Reading back the row of a contest gives the contest, exactly when its ids fit. */
  lemma ContestRowRoundTrip(c: Contest)
    ensures ContestFromRow(ContestRow(c)).Ok? <==> ContestFitsI32(c)
    ensures ContestFitsI32(c) ==> ContestFromRow(ContestRow(c)) == Ok(c)
  {
  }

  /** `query_row`: the first row of the result, if any. */
  function NextContest(firstRow: Option<seq<Value>>): (r: Result<Contest>)
    ensures firstRow.None? ==> r == Err(Sqlite(QueryReturnedNoRows))
    ensures firstRow.Some? ==> r == ContestFromRow(firstRow.value)
  {
    match firstRow
    case None => Err(Sqlite(QueryReturnedNoRows))
    case Some(row) => ContestFromRow(row)
  }

  /** `first = page * count` and `last = (page + 1) * count`, both `usize`. */
  function Window(count: nat, page: nat): (w: (nat, nat))
    requires (page + 1) * count <= USIZE_MAX
    ensures w.1 - w.0 == count
    ensures page == 0 ==> w.0 == 0
    ensures w.0 == page * count
  {
    (page * count, (page + 1) * count)
  }

  /** Consecutive pages abut: each page starts where the previous one ends. */
  lemma WindowsAbut(count: nat, page: nat)
    requires (page + 2) * count <= USIZE_MAX
    ensures Window(count, page + 1).0 == Window(count, page).1
  {
  }

  /** With a non-zero page size every rank falls in the window of exactly one page. */
  lemma {:induction false} RankInOneWindow(count: nat, page: nat, rank: nat)
    requires count > 0 && (page + 1) * count <= USIZE_MAX
    ensures Window(count, page).0 <= rank < Window(count, page).1 <==> page == rank / count
  {
    var q := rank / count;
    assert rank == q * count + rank % count;
    if page < q {
      assert (page + 1) * count <= q * count by { MulMonotone(page + 1, q, count); }
    } else if page > q {
      assert (q + 1) * count <= page * count by { MulMonotone(q + 1, page, count); }
    }
  }

  lemma MulMonotone(x: nat, y: nat, c: nat)
    requires x <= y
    ensures x * c <= y * c
  {
  }

  /** The group parameter: NULL (no filter) for the empty name, the name otherwise. */
  function GroupParam(group: string): (v: Value)
    ensures v == Null <==> group == ""
    ensures group != "" ==> v == Text(group)
  {
    if group == "" then Null else Text(group)
  }

  /** The three parameters `top` binds, in order. */
  function TopParams(group: string, count: nat, page: nat): (ps: seq<Value>)
    requires (page + 1) * count <= USIZE_MAX
    ensures |ps| == 3 && ps[0] == GroupParam(group)
    ensures ps[1] == Integer(page * count) && ps[2] == Integer((page + 1) * count)
  {
    var w := Window(count, page);
    [GroupParam(group), Integer(w.0), Integer(w.1)]
  }

  /** Truncation toward zero. */
  function Trunc(x: real): (n: int)
    ensures n >= 0 <==> x > -1.0
    ensures n as real <= x < n as real + 1.0 || n as real - 1.0 < x <= n as real
    ensures 0.0 <= x ==> n as real <= x
    ensures x <= 0.0 ==> x <= n as real
  {
    if x >= 0.0 then x.Floor else -((-x).Floor)
  }

  /** Rust's `f32 as i32`: truncate toward zero, saturating at the bounds of `i32`
      (NaN, which maps to 0, is not modelled). */
  function F32AsI32(x: real): (n: int)
    ensures IsI32(n)
    ensures IsI32(Trunc(x)) ==> n == Trunc(x)
    ensures Trunc(x) > I32_MAX ==> n == I32_MAX
    ensures Trunc(x) < I32_MIN ==> n == I32_MIN
  {
    var t := Trunc(x);
    if t > I32_MAX then I32_MAX else if t < I32_MIN then I32_MIN else t
  }

  /** The `query_map` closure: the `f32` rating of column 2 first, then the group name
      of column 0 and the title name of column 1. */
  function TopRowFromRow(row: seq<Value>): (r: Result<TopRow>)
    ensures r.Ok? <==> GetF32(row, 2).Ok? && GetString(row, 0).Ok? && GetString(row, 1).Ok?
    ensures r.Ok? ==> r.value == TopRow(row[0].s, row[1].s, F32AsI32(GetF32(row, 2).value))
    ensures GetF32(row, 2).Err? ==> r == Err(GetF32(row, 2).error)
  {
    var elo :- GetF32(row, 2);
    var group :- GetString(row, 0);
    var entry :- GetString(row, 1);
    Ok(TopRow(group, entry, F32AsI32(elo)))
  }

  /** The answer of `top_criteria.sql` for each list of bound parameters. */
  type Query = seq<Value> -> Result<seq<seq<Value>>>

  /** Every row decodes (`row.unwrap()` panics otherwise). */
  predicate Decodable(rows: seq<seq<Value>>) {
    forall i :: 0 <= i < |rows| ==> TopRowFromRow(rows[i]).Ok?
  }

  /** The decoded rows: one `TopRow` per result row, in result order. */
  function DecodeRows(rows: seq<seq<Value>>): (r: seq<TopRow>)
    requires Decodable(rows)
    ensures |r| == |rows|
    ensures forall i :: 0 <= i < |rows| ==> r[i] == TopRowFromRow(rows[i]).value
  {
    if |rows| == 0 then []
    else [TopRowFromRow(rows[0]).value] + DecodeRows(rows[1..])
  }

  /** `top(criteria_group, count, page)` as a value, for use in specifications. */
  function TopAnswer(query: Query, group: string, count: nat, page: nat): Result<seq<TopRow>>
    requires (page + 1) * count <= USIZE_MAX
    requires query(TopParams(group, count, page)).Ok? ==> Decodable(query(TopParams(group, count, page)).value)
  {
    match query(TopParams(group, count, page))
    case Err(e) => Err(e)
    case Ok(rows) => Ok(DecodeRows(rows))
  }

  /** `top`: bind the filter and the window, run the query and push the decoded rows
      one by one. A failed query is its error; the rows come back in query order. */
  method Top(query: Query, group: string, count: nat, page: nat) returns (r: Result<seq<TopRow>>)
    requires (page + 1) * count <= USIZE_MAX
    requires query(TopParams(group, count, page)).Ok? ==> Decodable(query(TopParams(group, count, page)).value)
    ensures r == TopAnswer(query, group, count, page)
    ensures query(TopParams(group, count, page)).Err? ==> r == Err(query(TopParams(group, count, page)).error)
    ensures query(TopParams(group, count, page)).Ok? ==>
      && r.Ok? && |r.value| == |query(TopParams(group, count, page)).value|
      && forall i :: 0 <= i < |r.value| ==>
           r.value[i] == TopRowFromRow(query(TopParams(group, count, page)).value[i]).value
  {
    var answer := query(TopParams(group, count, page));
    if answer.Err? {
      return Err(answer.error);
    }
    var rows := answer.value;
    var results: seq<TopRow> := [];
    var k := 0;
    while k < |rows|
      invariant 0 <= k <= |rows|
      invariant |results| == k
      invariant forall i :: 0 <= i < k ==> results[i] == TopRowFromRow(rows[i]).value
    {
      results := results + [TopRowFromRow(rows[k]).value];
      k := k + 1;
    }
    assert results == DecodeRows(rows);
    return Ok(results);
  }
}
