# FRC 2011 scouting tool: the per-team summary, in Dafny

The scouting tool records one row per team per match in an SQLite table
`matches` (match and team number, autonomous tier, high/middle/low tube
counts, minibot place, penalties, card level, comment) and shows a viewer
window with one line per team. This project models the two pieces of logic
the tool has:

- **The refresh of the viewer** (`my_view_refresh`). For every team number
  the distinct-team query yields, the rows of that team are folded into
  running counters: the row count `reps`, the sums of autonomous tier, tube
  counts and penalties, the number of minibot attempts (`miniplace > 0`) and
  the sum of those places, and the counts of red (`cards == 2`) and yellow
  (`cards == 1`) cards. One display line then holds each sum divided by
  `reps`, the attempt rate `miniattemps / reps`, the average place
  `avgplace / miniattemps`, and the two raw card counts.
- **Saving the data-entry form** (`file_save_menuitem_activate_cb`). The two
  radio groups become ordinals: autonomous high/middle/low/none as 3/2/1/0,
  red/yellow/no card as 2/1/0, the first active button winning; the text
  entries' parsed numbers are cast to a C `int`.

Files:

- `wrappers.dfy`: `Option`, for values the source leaves unset or divides by zero.
- `rows.dfy` (module `Rows`): the `Row` datatype; `Total`, one additive
  function for every summed or counted quantity (a `Measure`); `Filter`, the
  rows of one team, as the refresh query's `WHERE teamno = ?` selects them;
  their algebra (append, removal, permutation, bounds).
- `aggregate.dfy` (module `Aggregate`): `FoldTeam`, the inner loop as a
  method with loop invariants proved against `TallyOf`; `Summarize`, the
  display line; `Refresh`, the outer loop; what the distinct-team query may
  return (`IsTeamEnumeration`, with `DistinctTeams` as one such order); and the
  lemmas about all of these.
- `entry.dfy` (module `Entry`): the radio-button encodings and the row the
  Save action inserts.

Choices the model makes:

- The SQLite queries are inputs. `Refresh` takes the table, the sequence of
  team numbers the distinct query returned (any order in which each team of
  the table appears once) and, per team, the rows the refresh query returned
  (any order of that team's rows). The result is proved equal to the summary
  of `Filter(table, team)` for every team, so it does not depend on either
  order.
- Integers are unbounded. The `(guint)` cast of the team number is modelled as
  reduction modulo 2^32 (`ToGuint`), the `(gint)` cast of the parsed numbers
  as two's-complement truncation to 32 bits (`ToGint`).
- The `gdouble` divisions become exact `real` quotients. `Mini Place` with no
  attempts, where the source divides by zero, is `None`.
- A radio group with no active button, where the source binds an unset
  variable (its "else error" comment), makes `SavedRow` return `None`.
- The ordinal columns are in range only while each radio group has an active
  button (`SaveOfRadioGroups`), which GTK radio groups guarantee.

## Model

| member | source | states |
|---|---|---|
| `Aggregate.FoldTeam` | scout.c:98-110 | every counter starts at zero and, after the loop, `reps` is the number of the team's rows and each other counter is the total of its measure over them (`TallyOf`) |
| `Aggregate.TallyAppend` | scout.c:99-110 | the counters of two runs of rows concatenated are the field-by-field sums of their counters: every update is a sum or a count |
| `Aggregate.TallyPermutation` | scout.c:99-110 | permuting a team's rows leaves every counter unchanged |
| `Aggregate.TallyBounds` | scout.c:104-108 | `0 <= miniattemps <= reps`, `avgplace >= miniattemps`, `reds` and `yels` non-negative and `reds + yels <= reps` |
| `Aggregate.TallyZeroCounts` | scout.c:104-108 | `miniattemps` is zero iff no row has a positive minibot place; `reds` (`yels`) is zero iff no row has card level 2 (1) |
| `Aggregate.TallySingleton` | scout.c:99-109 | the counters of a single row: one rep, its values, its attempt and its card |
| `Aggregate.Summarize` | scout.c:112-124 | the team column is the `guint` team number; each average times `reps` gives its sum; `Mini %` times `reps` gives the attempts; `Mini Place` is defined iff there are attempts and then times the attempts gives the place sum; the card columns are the raw counts |
| `Aggregate.MiniRateInUnitInterval` | scout.c:119 | the `Mini %` column lies in [0, 1] |
| `Aggregate.PlaceDefinedIffAttempted` | scout.c:120 | `Mini Place` is defined iff some row of the team has a positive minibot place, and is then at least 1 |
| `Aggregate.CardCountsBounded` | scout.c:122-123 | the red and yellow columns are non-negative and add up to at most the team's number of rows |
| `Aggregate.MeanWithin` | scout.c:115-121 | an average column (sum over `reps`) lies between any lower and upper bound of the column's values |
| `Aggregate.MeanBetween` | scout.c:115-121 | a sum between `lo * n` and `hi * n` gives a quotient between `lo` and `hi` |
| `Aggregate.AutonomousMeanInRange` | scout.c:115 | over rows written by the form, the `Auto` column lies in [0, 3] |
| `Aggregate.SingleRowSummary` | scout.c:112-124 | a team with one row gets that row's values as its averages, 1 or 0 as attempt rate, its place or nothing as `Mini Place`, and 1 or 0 per card colour |
| `Aggregate.SummaryPermutation` | scout.c:99-124 | the display line does not depend on the order of the team's rows |
| `Aggregate.ExampleTally` | scout.c:98-110 | two rows of team 100 give the counters (2, 3, 2, 1, 3, 1, 2, 1, 1, 0) |
| `Aggregate.SummaryExample` | scout.c:112-124 | the same two rows give averages 1.5, 1.0, 0.5, 1.5, attempt rate 0.5, place 2.0, penalties 0.5, one red and no yellow card |
| `Aggregate.ToGuint` | scout.c:114 | the team column is in [0, 2^32), congruent to the team number modulo 2^32, and equal to it when it is non-negative and below 2^32 |
| `Aggregate.DistinctTeamsEnumerates` | scout.c:10 | listing the team numbers in order of first appearance meets what the distinct-team query returns: each team of the table once, and only teams with rows |
| `Aggregate.EnumerationCovers` | scout.c:91-92 | a team number is enumerated iff some row of the table carries it |
| `Aggregate.Refresh` | scout.c:91-125 | one display line per enumerated team, in enumeration order, each the summary of exactly that team's rows, whatever order the refresh query returns them in |
| `Aggregate.OneRowPerTeam` | scout.c:112-114 | each line's team column is its team number as `guint`; for 32-bit team numbers no two lines show the same team and every team of the table is shown |
| `Aggregate.EveryRowCountedOnce` | scout.c:91-109 | the row counts of all enumerated teams add up to the number of rows in the table |
| `Aggregate.GuintInjective` | scout.c:114 | two different 32-bit team numbers never show as the same `guint` |
| `Aggregate.OccursOnce` | scout.c:10 | a team number in a list of distinct numbers occurs in it exactly once |
| `Aggregate.RepsSnoc` | scout.c:97-109 | adding a row to the table adds one to its own team's row count and nothing to the others |
| `Rows.TotalAppend` | scout.c:99-110 | every accumulated quantity is additive over concatenation of rows |
| `Rows.TotalPermutation` | scout.c:99-110 | every accumulated quantity depends only on the multiset of rows |
| `Rows.TotalRemove` | scout.c:99-110 | removing one row removes exactly its contribution |
| `Rows.TotalBetween` | scout.c:99-106 | per-row contributions between `lo` and `hi` give a total between `lo` and `hi` times the row count |
| `Rows.CountBounds` | scout.c:104-108 | the attempt and card counts lie between 0 and the number of rows |
| `Rows.CountZero` | scout.c:104-108 | a count is zero iff no row is counted |
| `Rows.PlacesAtLeastAttempts` | scout.c:104-105 | the sum of positive places is at least the number of attempts |
| `Rows.CardLevelsExclusive` | scout.c:107-108 | counts of two different card levels add up to at most the number of rows |
| `Rows.Filter` | scout.c:11 | the selection for a team holds only rows of that team and is no longer than the table |
| `Rows.FilterMultiplicity` | scout.c:11 | each row of the team is selected as many times as it occurs in the table, and rows of other teams never: equal rows saved twice are both counted |
| `Rows.FilterMembers` | scout.c:11 | a row is selected for a team iff it is in the table and carries that team number |
| `Rows.FilterNonEmpty` | scout.c:11 | a team's selection is non-empty iff some row of the table carries its number |
| `Entry.AutonomousOrdinal` | scout.c:321-325 | the tier is the largest ordinal whose button is active (high 3, middle 2, low 1, none 0: first active wins), unset iff no button is active |
| `Entry.CardOrdinal` | scout.c:333-336 | the card level is the largest ordinal whose button is active (red 2, yellow 1, none 0), unset iff no button is active |
| `Entry.AutonomousOfRadioGroup` | scout.c:321-324 | with exactly one active button, the tier is set and names exactly that button |
| `Entry.CardOfRadioGroup` | scout.c:333-335 | with exactly one active button, the card level is set and names exactly that button |
| `Entry.AutonomousRoundTrip` | scout.c:321-324 | selecting the button of tier 0 to 3 encodes to that tier, any other value selects nothing, and a one-button group is the selection of its own encoding |
| `Entry.CardRoundTrip` | scout.c:333-335 | the same round trip for card levels 0 to 2 |
| `Entry.ToGint` | scout.c:318-319 | the cast yields a 32-bit value congruent to the parsed number modulo 2^32 and equal to it when it already fits |
| `Entry.SavedRow` | scout.c:314-350 | a row is inserted iff both radio groups have an active button; it then holds the two encoded ordinals (tier 0 to 3, card level 0 to 2), the match and team numbers cast to 32 bits (equal to the entered ones when they fit), and the spin-button values and comment unchanged |
| `Entry.SaveOfRadioGroups` | scout.c:321-336 | a form whose radio groups each have one active button always saves, with the active buttons' ordinals |

## Left out

- SQLite: opening the database, preparing, resetting, binding and stepping
  statements and their error returns (scout.c:44-68, 74-89, 93-96, 304-312,
  353-356) are not modelled. The query results are inputs of `Refresh`. A
  failed reset in the middle of a refresh returns before the new store is
  handed to the tree view, so the viewer keeps its previous contents (and the
  partial store is never released); the model has no such outcome.
- GTK: the list store construction and the handing of it to the tree view
  (scout.c:90, 126-127), the window and column wiring in `main`, the
  file-chooser callbacks and the form reset after saving are interface code.
  `Refresh` returns the display lines as a sequence.
- Parsing the match and team entries (`g_ascii_strtoll`) and reading the
  comment text are library calls; `Form` takes their results as values.
- Floating point: the divisions are exact rational quotients, with no
  rounding or NaN.
- Overflow of the `int` counters for very many or very large values is not
  modelled. The counters are unbounded integers, and the card counts are not
  reduced modulo 2^32 in the `guint` columns.
- Summarize: requires a positive row count, where the source divides without
  a guard. Every team the distinct-team query yields has a row, and
  `Refresh` proves the requirement from that.
- Idempotence of the refresh is immediate in the model, because all of its
  results are functions of the table. No lemma states it.
