/** Rows of the `matches` table and the additive quantities that the
    per-team summary accumulates over them. */
module Rows {

  /** One row of the `matches` table (one team in one match). */
  datatype Row = Row(
    matchno: int,
    teamno: int,
    autonomous: int,
    high: int,
    middle: int,
    low: int,
    miniplace: int,
    penalties: int,
    cards: int,
    comment: string)

  /** The values a C `int` (32 bits, two's complement) can hold. */
  predicate IsInt32(x: int)
  {
    -0x8000_0000 <= x < 0x8000_0000
  }

  /** 2^32, the number of values of a 32-bit C integer. */
  const Modulus32: int := 0x1_0000_0000

  /** The ranges the data-entry form gives the two ordinal columns:
      autonomous tier 0 to 3 and card level 0 to 2. */
  predicate WellFormed(r: Row)
  {
    0 <= r.autonomous <= 3 && 0 <= r.cards <= 2
  }

  /** The columns whose values the summary adds up. */
  datatype Column = Autonomous | High | Middle | Low | Penalties

  function Get(r: Row, c: Column): int
  {
    match c
    case Autonomous => r.autonomous
    case High => r.high
    case Middle => r.middle
    case Low => r.low
    case Penalties => r.penalties
  }

  /** Every counter of the summary loop other than the row count adds one
      row's contribution per step: `Sum(c)` adds column `c`, `Attempts` counts rows with
      a positive minibot place, `AttemptedPlaces` adds the positive minibot
      places, `CardsAt(k)` counts rows whose card level is `k`. */
  datatype Measure = Sum(col: Column) | Attempts | AttemptedPlaces | CardsAt(level: int)

  function Weight(r: Row, m: Measure): int
  {
    match m
    case Sum(c) => Get(r, c)
    case Attempts => if r.miniplace > 0 then 1 else 0
    case AttemptedPlaces => if r.miniplace > 0 then r.miniplace else 0
    case CardsAt(k) => if r.cards == k then 1 else 0
  }

  /** The measures that count rows rather than add values. */
  predicate IsCount(m: Measure)
  {
    m.Attempts? || m.CardsAt?
  }

  /** The contribution of all of `rows` to measure `m`, taken from the last row
      backwards so that a loop over `rows[..i]` adds `rows[i]` next. */
  function Total(rows: seq<Row>, m: Measure): int
    decreases |rows|
  {
    if rows == [] then 0 else Total(rows[..|rows| - 1], m) + Weight(rows[|rows| - 1], m)
  }

  /** The rows of one team, in table order: what the refresh query selects. */
  function Filter(table: seq<Row>, team: int): (r: seq<Row>)
    ensures |r| <= |table|
    ensures forall i :: 0 <= i < |r| ==> r[i].teamno == team
    decreases |table|
  {
    if table == [] then []
    else
      var rest := Filter(table[..|table| - 1], team);
      if table[|table| - 1].teamno == team then rest + [table[|table| - 1]] else rest
  }

  lemma {:induction false} WeightOfCount(r: Row, m: Measure)
    requires IsCount(m)
    ensures Weight(r, m) == 0 || Weight(r, m) == 1
  {
  }

  lemma TotalSingleton(r: Row, m: Measure)
    ensures Total([r], m) == Weight(r, m)
  {
    assert [r][..0] == [];
  }

  /** Totals are additive over concatenation. */
  lemma {:induction false} TotalAppend(a: seq<Row>, b: seq<Row>, m: Measure)
    ensures Total(a + b, m) == Total(a, m) + Total(b, m)
    decreases |b|
  {
    if b == [] {
      assert a + b == a;
    } else {
      var b' := b[..|b| - 1];
      assert (a + b)[..|a + b| - 1] == a + b';
      TotalAppend(a, b', m);
    }
  }

  /** Taking out the row at index `j` takes out exactly its own weight. */
  lemma TotalRemove(s: seq<Row>, j: int, m: Measure)
    requires 0 <= j < |s|
    ensures Total(s, m) == Total(s[..j] + s[j + 1..], m) + Weight(s[j], m)
  {
    assert s == s[..j] + [s[j]] + s[j + 1..];
    TotalAppend(s[..j] + [s[j]], s[j + 1..], m);
    TotalAppend(s[..j], [s[j]], m);
    TotalAppend(s[..j], s[j + 1..], m);
    TotalSingleton(s[j], m);
  }

  /** Removing the element at index `j` removes one occurrence of it. */
  lemma MultisetRemove(s: seq<Row>, j: int)
    requires 0 <= j < |s|
    ensures multiset(s[..j] + s[j + 1..]) == multiset(s) - multiset{s[j]}
  {
    assert s == s[..j] + [s[j]] + s[j + 1..];
    assert multiset(s) == multiset(s[..j]) + multiset{s[j]} + multiset(s[j + 1..]);
  }

  /** A total depends only on the multiset of rows, not on their order. */
  lemma {:induction false} TotalPermutation(a: seq<Row>, b: seq<Row>, m: Measure)
    requires multiset(a) == multiset(b)
    ensures Total(a, m) == Total(b, m)
    decreases |a|
  {
    if a == [] {
      assert |b| == |multiset(b)| == 0;
    } else {
      var n := |a| - 1;
      var x := a[n];
      assert x in multiset(a);
      var j :| 0 <= j < |b| && b[j] == x;
      var b' := b[..j] + b[j + 1..];
      MultisetRemove(a, n);
      MultisetRemove(b, j);
      assert a[..n] + a[n + 1..] == a[..n];
      TotalPermutation(a[..n], b', m);
      TotalRemove(b, j, m);
    }
  }

  /** If every row contributes between `lo` and `hi`, the total lies between
      `lo` and `hi` times the number of rows. */
  lemma {:induction false} TotalBetween(rows: seq<Row>, m: Measure, lo: int, hi: int)
    requires forall i :: 0 <= i < |rows| ==> lo <= Weight(rows[i], m) <= hi
    ensures lo * |rows| <= Total(rows, m) <= hi * |rows|
    decreases |rows|
  {
    if rows != [] {
      var n := |rows| - 1;
      TotalBetween(rows[..n], m, lo, hi);
      assert lo <= Weight(rows[n], m) <= hi;
      assert lo * |rows| == lo * n + lo && hi * |rows| == hi * n + hi;
    }
  }

  /** A count never exceeds the number of rows. */
  lemma CountBounds(rows: seq<Row>, m: Measure)
    requires IsCount(m)
    ensures 0 <= Total(rows, m) <= |rows|
  {
    forall i | 0 <= i < |rows| ensures 0 <= Weight(rows[i], m) <= 1 {
      WeightOfCount(rows[i], m);
    }
    TotalBetween(rows, m, 0, 1);
  }

  /** A count is zero exactly when no row is counted. */
  lemma {:induction false} CountZero(rows: seq<Row>, m: Measure)
    requires IsCount(m)
    ensures Total(rows, m) == 0 <==> forall i :: 0 <= i < |rows| ==> Weight(rows[i], m) == 0
    decreases |rows|
  {
    if rows != [] {
      var n := |rows| - 1;
      CountZero(rows[..n], m);
      CountBounds(rows[..n], m);
      WeightOfCount(rows[n], m);
      if Total(rows, m) == 0 {
        forall i | 0 <= i < |rows| ensures Weight(rows[i], m) == 0 {
          if i < n { assert rows[i] == rows[..n][i]; }
        }
      } else {
        // either the last row or some earlier row is counted
        if Weight(rows[n], m) == 0 {
          var i :| 0 <= i < n && Weight(rows[..n][i], m) != 0;
          assert rows[i] == rows[..n][i];
        }
      }
    }
  }

  /** Each minibot attempt adds a place of at least one. */
  lemma {:induction false} PlacesAtLeastAttempts(rows: seq<Row>)
    ensures Total(rows, AttemptedPlaces) >= Total(rows, Attempts)
    decreases |rows|
  {
    if rows != [] {
      PlacesAtLeastAttempts(rows[..|rows| - 1]);
    }
  }

  /** Two different card levels can never both count the same row. */
  lemma {:induction false} CardLevelsExclusive(rows: seq<Row>, k1: int, k2: int)
    requires k1 != k2
    ensures Total(rows, CardsAt(k1)) + Total(rows, CardsAt(k2)) <= |rows|
    decreases |rows|
  {
    if rows != [] {
      CardLevelsExclusive(rows[..|rows| - 1], k1, k2);
    }
  }

  /** A row is selected for a team exactly when it is in the table and belongs
      to that team. */
  lemma {:induction false} FilterMembers(table: seq<Row>, team: int, r: Row)
    ensures r in Filter(table, team) <==> r in table && r.teamno == team
    decreases |table|
  {
    if table != [] {
      var n := |table| - 1;
      FilterMembers(table[..n], team, r);
      assert table == table[..n] + [table[n]];
    }
  }

  /** A team's selection holds every row of that team as many times as the
      table does, and no other row: equal rows saved twice are counted twice. */
  lemma {:induction false} FilterMultiplicity(table: seq<Row>, team: int, r: Row)
    ensures multiset(Filter(table, team))[r] == if r.teamno == team then multiset(table)[r] else 0
    decreases |table|
  {
    if table != [] {
      var n := |table| - 1;
      FilterMultiplicity(table[..n], team, r);
      assert table == table[..n] + [table[n]];
    }
  }

  /** A team has rows exactly when some row of the table carries its number. */
  lemma FilterNonEmpty(table: seq<Row>, team: int)
    ensures Filter(table, team) != [] <==> exists i :: 0 <= i < |table| && table[i].teamno == team
  {
    var f := Filter(table, team);
    if f != [] {
      FilterMembers(table, team, f[0]);
      var i :| 0 <= i < |table| && table[i] == f[0];
    }
    if exists i :: 0 <= i < |table| && table[i].teamno == team {
      var i :| 0 <= i < |table| && table[i].teamno == team;
      FilterMembers(table, team, table[i]);
    }
  }
}
