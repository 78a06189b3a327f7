/** The per-team summary that refreshing the viewer window computes: for each
    distinct team number, one pass over that team's rows that keeps running
    counters, then one display row of averages and counts. */
module Aggregate {
  import opened Wrappers
  import opened Rows

  /** The counters the inner loop keeps for one team. */
  datatype Tally = Tally(
    reps: int,
    autogpa: int,
    high: int,
    middle: int,
    low: int,
    miniattemps: int,
    avgplace: int,
    penalties: int,
    reds: int,
    yels: int)

  /** The counters after a pass over `rows`, each one a row count or a total
      of one measure over the rows. */
  function TallyOf(rows: seq<Row>): Tally
  {
    Tally(
      |rows|,
      Total(rows, Sum(Autonomous)),
      Total(rows, Sum(High)),
      Total(rows, Sum(Middle)),
      Total(rows, Sum(Low)),
      Total(rows, Attempts),
      Total(rows, AttemptedPlaces),
      Total(rows, Sum(Penalties)),
      Total(rows, CardsAt(2)),
      Total(rows, CardsAt(1)))
  }

  /** Counters of two runs of rows, added field by field. */
  function Add(x: Tally, y: Tally): Tally
  {
    Tally(
      x.reps + y.reps,
      x.autogpa + y.autogpa,
      x.high + y.high,
      x.middle + y.middle,
      x.low + y.low,
      x.miniattemps + y.miniattemps,
      x.avgplace + y.avgplace,
      x.penalties + y.penalties,
      x.reds + y.reds,
      x.yels + y.yels)
  }

  /** The inner loop of the refresh: every counter starts at zero and each row
      adds its contribution. */
  method FoldTeam(rows: seq<Row>) returns (t: Tally)
    ensures t == TallyOf(rows)
  {
    var reps, autogpa, high, middle, low := 0, 0, 0, 0, 0;
    var miniplace, avgplace, miniattemps, penalties := 0, 0, 0, 0;
    var cards, reds, yels := 0, 0, 0;
    var i := 0;
    while i < |rows|
      invariant 0 <= i <= |rows|
      invariant reps == i
      invariant autogpa == Total(rows[..i], Sum(Autonomous))
      invariant high == Total(rows[..i], Sum(High))
      invariant middle == Total(rows[..i], Sum(Middle))
      invariant low == Total(rows[..i], Sum(Low))
      invariant miniattemps == Total(rows[..i], Attempts)
      invariant avgplace == Total(rows[..i], AttemptedPlaces)
      invariant penalties == Total(rows[..i], Sum(Penalties))
      invariant reds == Total(rows[..i], CardsAt(2))
      invariant yels == Total(rows[..i], CardsAt(1))
    {
      var row := rows[i];
      assert rows[..i + 1][..i] == rows[..i];
      autogpa := autogpa + row.autonomous;
      high := high + row.high;
      middle := middle + row.middle;
      low := low + row.low;
      miniplace := row.miniplace;
      if miniplace > 0 {
        miniattemps := miniattemps + 1;
        avgplace := avgplace + miniplace;
      }
      penalties := penalties + row.penalties;
      cards := row.cards;
      if cards == 2 {
        reds := reds + 1;
      } else if cards == 1 {
        yels := yels + 1;
      }
      reps := reps + 1;
      i := i + 1;
    }
    assert rows[..i] == rows;
    t := Tally(reps, autogpa, high, middle, low, miniattemps, avgplace, penalties, reds, yels);
  }

  /** The counters of a concatenation are the sums of the counters of its
      parts: nothing but sums and counts is accumulated. */
  lemma TallyAppend(a: seq<Row>, b: seq<Row>)
    ensures TallyOf(a + b) == Add(TallyOf(a), TallyOf(b))
  {
    TotalAppend(a, b, Sum(Autonomous));
    TotalAppend(a, b, Sum(High));
    TotalAppend(a, b, Sum(Middle));
    TotalAppend(a, b, Sum(Low));
    TotalAppend(a, b, Attempts);
    TotalAppend(a, b, AttemptedPlaces);
    TotalAppend(a, b, Sum(Penalties));
    TotalAppend(a, b, CardsAt(2));
    TotalAppend(a, b, CardsAt(1));
  }

  /** The counters depend only on the multiset of a team's rows. */
  lemma TallyPermutation(a: seq<Row>, b: seq<Row>)
    requires multiset(a) == multiset(b)
    ensures TallyOf(a) == TallyOf(b)
  {
    assert |a| == |multiset(a)| == |multiset(b)| == |b|;
    TotalPermutation(a, b, Sum(Autonomous));
    TotalPermutation(a, b, Sum(High));
    TotalPermutation(a, b, Sum(Middle));
    TotalPermutation(a, b, Sum(Low));
    TotalPermutation(a, b, Attempts);
    TotalPermutation(a, b, AttemptedPlaces);
    TotalPermutation(a, b, Sum(Penalties));
    TotalPermutation(a, b, CardsAt(2));
    TotalPermutation(a, b, CardsAt(1));
  }

  /** Bounds relating the counters: attempts and cards are counts of rows,
      cards are exclusive, and every attempted place is at least one. */
  lemma TallyBounds(rows: seq<Row>)
    ensures var t := TallyOf(rows);
      && 0 <= t.miniattemps <= t.reps
      && t.avgplace >= t.miniattemps
      && 0 <= t.reds && 0 <= t.yels
      && t.reds + t.yels <= t.reps
  {
    CountBounds(rows, Attempts);
    PlacesAtLeastAttempts(rows);
    CountBounds(rows, CardsAt(2));
    CountBounds(rows, CardsAt(1));
    CardLevelsExclusive(rows, 2, 1);
  }

  /** Which rows the special counters see: `miniattemps` is zero exactly when
      no row has a positive minibot place, `reds` exactly when no row has card
      level 2, `yels` exactly when no row has card level 1. */
  lemma TallyZeroCounts(rows: seq<Row>)
    ensures TallyOf(rows).miniattemps == 0 <==> forall i :: 0 <= i < |rows| ==> rows[i].miniplace <= 0
    ensures TallyOf(rows).reds == 0 <==> forall i :: 0 <= i < |rows| ==> rows[i].cards != 2
    ensures TallyOf(rows).yels == 0 <==> forall i :: 0 <= i < |rows| ==> rows[i].cards != 1
  {
    CountZero(rows, Attempts);
    CountZero(rows, CardsAt(2));
    CountZero(rows, CardsAt(1));
    assert forall i :: 0 <= i < |rows| ==> (Weight(rows[i], Attempts) == 0 <==> rows[i].miniplace <= 0);
  }

  /** One display row of the viewer: team, the averages and the two card
      counts. `place` is `None` where the source divides by zero minibot
      attempts. */
  datatype Summary = Summary(
    team: int,
    auto: real,
    high: real,
    middle: real,
    low: real,
    mini: real,
    place: Option<real>,
    penalties: real,
    reds: int,
    yels: int)

  /** The conversion of a C `int` to `guint` (an unsigned 32-bit integer). */
  function ToGuint(x: int): (u: int)
    ensures 0 <= u < Modulus32
    ensures (u - x) % Modulus32 == 0
    ensures 0 <= x ==> x < Modulus32 ==> u == x
  {
    x % Modulus32
  }

  function Mean(sum: int, n: int): real
    requires n != 0
  {
    sum as real / n as real
  }

  /** The display row made from one team's counters. */
  function Summarize(teamno: int, t: Tally): (s: Summary)
    requires t.reps > 0
    ensures s.team == ToGuint(teamno)
    ensures s.auto * t.reps as real == t.autogpa as real
    ensures s.high * t.reps as real == t.high as real
    ensures s.middle * t.reps as real == t.middle as real
    ensures s.low * t.reps as real == t.low as real
    ensures s.mini * t.reps as real == t.miniattemps as real
    ensures s.penalties * t.reps as real == t.penalties as real
    ensures s.place.Some? <==> t.miniattemps != 0
    ensures s.place.Some? ==> s.place.value * t.miniattemps as real == t.avgplace as real
    ensures s.reds == t.reds && s.yels == t.yels
  {
    Summary(
      ToGuint(teamno),
      Mean(t.autogpa, t.reps),
      Mean(t.high, t.reps),
      Mean(t.middle, t.reps),
      Mean(t.low, t.reps),
      Mean(t.miniattemps, t.reps),
      if t.miniattemps == 0 then None else Some(Mean(t.avgplace, t.miniattemps)),
      Mean(t.penalties, t.reps),
      t.reds,
      t.yels)
  }

  /** The minibot attempt rate of a team is a fraction in [0, 1]. */
  lemma MiniRateInUnitInterval(teamno: int, rows: seq<Row>)
    requires rows != []
    ensures 0.0 <= Summarize(teamno, TallyOf(rows)).mini <= 1.0
  {
    TallyBounds(rows);
    var t := TallyOf(rows);
    assert t.miniattemps as real <= t.reps as real;
  }

  /** The average minibot place is defined exactly when some row of the team
      records an attempt, and then it is at least one. */
  lemma PlaceDefinedIffAttempted(teamno: int, rows: seq<Row>)
    requires rows != []
    ensures var s := Summarize(teamno, TallyOf(rows));
      && (s.place.Some? <==> exists i :: 0 <= i < |rows| && rows[i].miniplace > 0)
      && (s.place.Some? ==> s.place.value >= 1.0)
  {
    TallyZeroCounts(rows);
    TallyBounds(rows);
    var t := TallyOf(rows);
    if t.miniattemps != 0 {
      assert t.avgplace as real >= t.miniattemps as real;
    }
  }

  /** Red and yellow counts are raw counts of rows, never more together than
      the team's rows. */
  lemma CardCountsBounded(teamno: int, rows: seq<Row>)
    requires rows != []
    ensures var s := Summarize(teamno, TallyOf(rows));
      0 <= s.reds && 0 <= s.yels && s.reds + s.yels <= |rows|
  {
    TallyBounds(rows);
  }

  /** A mean lies within the bounds of the values it averages. */
  lemma MeanWithin(rows: seq<Row>, c: Column, lo: int, hi: int)
    requires rows != []
    requires forall i :: 0 <= i < |rows| ==> lo <= Get(rows[i], c) <= hi
    ensures lo as real <= Mean(Total(rows, Sum(c)), |rows|) <= hi as real
  {
    forall i | 0 <= i < |rows| ensures lo <= Weight(rows[i], Sum(c)) <= hi {
      assert Weight(rows[i], Sum(c)) == Get(rows[i], c);
    }
    TotalBetween(rows, Sum(c), lo, hi);
    MeanBetween(Total(rows, Sum(c)), |rows|, lo, hi);
  }

  lemma MeanBetween(sum: int, n: int, lo: int, hi: int)
    requires n > 0
    requires lo * n <= sum <= hi * n
    ensures lo as real <= Mean(sum, n) <= hi as real
  {
    RealOfProduct(lo, n);
    RealOfProduct(hi, n);
    QuotientWithin(sum as real, n as real, lo as real, hi as real);
  }

  lemma RealOfProduct(a: int, b: int)
    ensures (a * b) as real == a as real * b as real
  {
  }

  lemma QuotientWithin(sum: real, n: real, lo: real, hi: real)
    requires n > 0.0
    requires lo * n <= sum <= hi * n
    ensures lo <= sum / n <= hi
  {
    var q := sum / n;
    assert q * n == sum;
    assert (q - lo) * n >= 0.0;
    assert (hi - q) * n >= 0.0;
  }

  /** Over rows saved through the form, the autonomous average is a tier
      between 0 and 3. */
  lemma AutonomousMeanInRange(teamno: int, rows: seq<Row>)
    requires rows != []
    requires forall i :: 0 <= i < |rows| ==> WellFormed(rows[i])
    ensures 0.0 <= Summarize(teamno, TallyOf(rows)).auto <= 3.0
  {
    MeanWithin(rows, Autonomous, 0, 3);
  }

  /** The counters of a single row. */
  lemma TallySingleton(r: Row)
    ensures TallyOf([r]) == Tally(
      1, r.autonomous, r.high, r.middle, r.low,
      if r.miniplace > 0 then 1 else 0,
      if r.miniplace > 0 then r.miniplace else 0,
      r.penalties,
      if r.cards == 2 then 1 else 0,
      if r.cards == 1 then 1 else 0)
  {
    TotalSingleton(r, Sum(Autonomous));
    TotalSingleton(r, Sum(High));
    TotalSingleton(r, Sum(Middle));
    TotalSingleton(r, Sum(Low));
    TotalSingleton(r, Attempts);
    TotalSingleton(r, AttemptedPlaces);
    TotalSingleton(r, Sum(Penalties));
    TotalSingleton(r, CardsAt(2));
    TotalSingleton(r, CardsAt(1));
  }

  /** A team with one row has averages equal to that row's values. */
  lemma SingleRowSummary(teamno: int, r: Row)
    ensures var s := Summarize(teamno, TallyOf([r]));
      && s.team == ToGuint(teamno)
      && s.auto == r.autonomous as real
      && s.high == r.high as real
      && s.middle == r.middle as real
      && s.low == r.low as real
      && s.mini == (if r.miniplace > 0 then 1.0 else 0.0)
      && s.place == (if r.miniplace > 0 then Some(r.miniplace as real) else None)
      && s.penalties == r.penalties as real
      && s.reds == (if r.cards == 2 then 1 else 0)
      && s.yels == (if r.cards == 1 then 1 else 0)
  {
    TallySingleton(r);
  }

  /** The order in which the refresh query returns a team's rows does not
      matter to its display row. */
  lemma SummaryPermutation(teamno: int, a: seq<Row>, b: seq<Row>)
    requires a != []
    requires multiset(a) == multiset(b)
    ensures |b| > 0
    ensures Summarize(teamno, TallyOf(a)) == Summarize(teamno, TallyOf(b))
  {
    TallyPermutation(a, b);
  }

  /** Team 100 with two matches, one with autonomous high, two high and one
      middle tube and a penalty, one with three low tubes, minibot place two
      and a red card. */
  const ExampleRows: seq<Row> := [
    Row(1, 100, 3, 2, 1, 0, 0, 1, 0, ""),
    Row(2, 100, 0, 0, 0, 3, 2, 0, 2, "")]

  lemma ExampleTally()
    ensures TallyOf(ExampleRows) == Tally(2, 3, 2, 1, 3, 1, 2, 1, 1, 0)
  {
    var r1, r2 := ExampleRows[0], ExampleRows[1];
    assert ExampleRows == [r1] + [r2];
    TallyAppend([r1], [r2]);
    TallySingleton(r1);
    TallySingleton(r2);
  }

  lemma SummaryExample()
    ensures Summarize(100, TallyOf(ExampleRows))
      == Summary(100, 1.5, 1.0, 0.5, 1.5, 0.5, Some(2.0), 0.5, 1, 0)
  {
    ExampleTally();
  }

  /** The rows of `team` are present in the table. */
  predicate HasRows(table: seq<Row>, team: int)
  {
    Filter(table, team) != []
  }

  predicate Distinct(teams: seq<int>)
  {
    forall i, j :: 0 <= i < j < |teams| ==> teams[i] != teams[j]
  }

  /** What the distinct-team query may yield: every team of the table, each
      once, in any order. */
  predicate IsTeamEnumeration(table: seq<Row>, teams: seq<int>)
  {
    && Distinct(teams)
    && (forall k :: 0 <= k < |teams| ==> HasRows(table, teams[k]))
    && (forall i :: 0 <= i < |table| ==> table[i].teamno in teams)
  }

  /** The team numbers of the table in order of first appearance: one order
      the distinct-team query can produce. */
  function DistinctTeams(table: seq<Row>): seq<int>
    decreases |table|
  {
    if table == [] then []
    else
      var seen := DistinctTeams(table[..|table| - 1]);
      var t := table[|table| - 1].teamno;
      if t in seen then seen else seen + [t]
  }

  /** The rows of a team in a longer table extend those in its prefix. */
  lemma FilterSnoc(table: seq<Row>, team: int)
    requires table != []
    ensures HasRows(table[..|table| - 1], team) ==> HasRows(table, team)
    ensures table[|table| - 1].teamno == team ==> HasRows(table, team)
  {
  }

  lemma {:induction false} DistinctTeamsEnumerates(table: seq<Row>)
    ensures IsTeamEnumeration(table, DistinctTeams(table))
    decreases |table|
  {
    if table != [] {
      var n := |table| - 1;
      var init := table[..n];
      DistinctTeamsEnumerates(init);
      var seen := DistinctTeams(init);
      var teams := DistinctTeams(table);
      forall k | 0 <= k < |teams| ensures HasRows(table, teams[k]) {
        FilterSnoc(table, teams[k]);
        if k < |seen| {
          assert HasRows(init, seen[k]);
        }
      }
      forall i | 0 <= i < |table| ensures table[i].teamno in teams {
        if i < n {
          assert table[i] == init[i];
        }
      }
    }
  }

  /** A team number is enumerated exactly when some row carries it. */
  lemma EnumerationCovers(table: seq<Row>, teams: seq<int>, team: int)
    requires IsTeamEnumeration(table, teams)
    ensures team in teams <==> exists i :: 0 <= i < |table| && table[i].teamno == team
  {
    FilterNonEmpty(table, team);
    if team in teams {
      var k :| 0 <= k < |teams| && teams[k] == team;
      assert HasRows(table, teams[k]);
    }
  }

  /** The row counts of the listed teams, added up. */
  function RepsOf(table: seq<Row>, teams: seq<int>): int
    decreases |teams|
  {
    if teams == [] then 0
    else RepsOf(table, teams[..|teams| - 1]) + TallyOf(Filter(table, teams[|teams| - 1])).reps
  }

  function Occurrences(teams: seq<int>, team: int): int
    decreases |teams|
  {
    if teams == [] then 0
    else Occurrences(teams[..|teams| - 1], team) + if teams[|teams| - 1] == team then 1 else 0
  }

  lemma {:induction false} OccursOnce(teams: seq<int>, team: int)
    requires Distinct(teams)
    requires team in teams
    ensures Occurrences(teams, team) == 1
    decreases |teams|
  {
    var n := |teams| - 1;
    var init := teams[..n];
    assert Distinct(init);
    if teams[n] == team {
      assert team !in init;
      OccursNot(init, team);
    } else {
      assert teams == init + [teams[n]];
      OccursOnce(init, team);
    }
  }

  lemma {:induction false} OccursNot(teams: seq<int>, team: int)
    requires team !in teams
    ensures Occurrences(teams, team) == 0
    decreases |teams|
  {
    if teams != [] {
      OccursNot(teams[..|teams| - 1], team);
    }
  }

  /** Adding a row to the table adds one to the row count of its own team. */
  lemma {:induction false} RepsSnoc(table: seq<Row>, teams: seq<int>)
    requires table != []
    ensures RepsOf(table, teams)
      == RepsOf(table[..|table| - 1], teams) + Occurrences(teams, table[|table| - 1].teamno)
    decreases |teams|
  {
    if teams != [] {
      RepsSnoc(table, teams[..|teams| - 1]);
    }
  }

  /** The per-team passes together see every row of the table exactly once. */
  lemma {:induction false} EveryRowCountedOnce(table: seq<Row>, teams: seq<int>)
    requires Distinct(teams)
    requires forall i :: 0 <= i < |table| ==> table[i].teamno in teams
    ensures RepsOf(table, teams) == |table|
    decreases |table|
  {
    if table == [] {
      RepsEmpty(teams);
    } else {
      var n := |table| - 1;
      forall i | 0 <= i < n ensures table[..n][i].teamno in teams {
        assert table[..n][i] == table[i];
      }
      EveryRowCountedOnce(table[..n], teams);
      RepsSnoc(table, teams);
      OccursOnce(teams, table[n].teamno);
    }
  }

  lemma {:induction false} RepsEmpty(teams: seq<int>)
    ensures RepsOf([], teams) == 0
    decreases |teams|
  {
    if teams != [] {
      RepsEmpty(teams[..|teams| - 1]);
    }
  }

  /** The display row for one enumerated team. */
  function SummaryFor(table: seq<Row>, team: int): Summary
    requires HasRows(table, team)
  {
    Summarize(team, TallyOf(Filter(table, team)))
  }

  /** The refresh: one display row per enumerated team, in the order of
      enumeration. `groups[k]` is what the refresh query returns for
      `teams[k]`: that team's rows, in an order the model leaves open. */
  method Refresh(table: seq<Row>, teams: seq<int>, groups: seq<seq<Row>>) returns (view: seq<Summary>)
    requires IsTeamEnumeration(table, teams)
    requires |groups| == |teams|
    requires forall k :: 0 <= k < |teams| ==> multiset(groups[k]) == multiset(Filter(table, teams[k]))
    ensures |view| == |teams|
    ensures forall k :: 0 <= k < |teams| ==> view[k] == SummaryFor(table, teams[k])
  {
    view := [];
    var k := 0;
    while k < |teams|
      invariant 0 <= k <= |teams|
      invariant |view| == k
      invariant forall j :: 0 <= j < k ==> view[j] == SummaryFor(table, teams[j])
    {
      var teamno := teams[k];
      var rows := groups[k];
      var t := FoldTeam(rows);
      TallyPermutation(rows, Filter(table, teamno));
      view := view + [Summarize(teamno, t)];
      k := k + 1;
    }
  }

  lemma GuintInjective(x: int, y: int)
    requires IsInt32(x) && IsInt32(y) && x != y
    ensures ToGuint(x) != ToGuint(y)
  {
    assert ToGuint(x) == if x < 0 then x + Modulus32 else x;
    assert ToGuint(y) == if y < 0 then y + Modulus32 else y;
  }

  /** The team column of the view. */
  function ViewTeams(table: seq<Row>, teams: seq<int>): set<int>
    requires forall k :: 0 <= k < |teams| ==> HasRows(table, teams[k])
  {
    set k | 0 <= k < |teams| :: SummaryFor(table, teams[k]).team
  }

  /** The view holds exactly one row per distinct team number of the table,
      with that team's number in its team column. */
  lemma OneRowPerTeam(table: seq<Row>, teams: seq<int>)
    requires IsTeamEnumeration(table, teams)
    requires forall i :: 0 <= i < |table| ==> IsInt32(table[i].teamno)
    ensures forall k :: 0 <= k < |teams| ==> SummaryFor(table, teams[k]).team == ToGuint(teams[k])
    ensures forall i, j :: 0 <= i < j < |teams| ==>
      SummaryFor(table, teams[i]).team != SummaryFor(table, teams[j]).team
    ensures forall i :: 0 <= i < |table| ==> ToGuint(table[i].teamno) in ViewTeams(table, teams)
  {
    forall k | 0 <= k < |teams| ensures IsInt32(teams[k]) {
      FilterNonEmpty(table, teams[k]);
    }
    forall i, j | 0 <= i < j < |teams|
      ensures SummaryFor(table, teams[i]).team != SummaryFor(table, teams[j]).team
    {
      GuintInjective(teams[i], teams[j]);
    }
    forall i | 0 <= i < |table| ensures ToGuint(table[i].teamno) in ViewTeams(table, teams) {
      assert table[i].teamno in teams;
      var k :| 0 <= k < |teams| && teams[k] == table[i].teamno;
      assert SummaryFor(table, teams[k]).team == ToGuint(table[i].teamno);
    }
  }
}
