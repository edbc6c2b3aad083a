/**
 * Yearly aggregation of the clean table: group the rows by calendar year in
 * ascending key order, count each year's rows, average each category column
 * over the year, take the complement of each average, and build the
 * "observed / total" fraction written on every bar.
 *
 * Parsing a date is abstracted as `yearOf`, the calendar year of a Date text.
 */
module Yearly {
  import opened Cleaning

  predicate StrictlyIncreasing(s: seq<int>)
  {
    forall i, j :: 0 <= i < j < |s| ==> s[i] < s[j]
  }

  /** Adds `y` to an ascending key sequence, at its place, unless it is already there. */
  function Insert(keys: seq<int>, y: int): (r: seq<int>)
    requires StrictlyIncreasing(keys)
    ensures StrictlyIncreasing(r)
    ensures forall x :: x in r <==> x in keys || x == y
  {
    if keys == [] then [y]
    else if y < keys[0] then [y] + keys
    else if y == keys[0] then keys
    else
      var rest := Insert(keys[1..], y);
      assert forall x :: x in keys[1..] ==> keys[0] < x;
      assert forall i :: 0 <= i < |rest| ==> keys[0] < rest[i] by {
        forall i | 0 <= i < |rest| ensures keys[0] < rest[i] {
          assert rest[i] in rest;
        }
      }
      [keys[0]] + rest
  }

  /** The group keys: the years that occur in the table, ascending, each once. */
  function Years(rows: seq<CleanRow>, yearOf: string -> int): (ys: seq<int>)
    ensures StrictlyIncreasing(ys)
    ensures forall y :: y in ys <==> exists i :: 0 <= i < |rows| && yearOf(rows[i].date) == y
  {
    if rows == [] then []
    else
      var init := rows[..|rows| - 1];
      var ys := Insert(Years(init, yearOf), yearOf(rows[|rows| - 1].date));
      assert forall i :: 0 <= i < |init| ==> init[i] == rows[i];
      ys
  }

  /** The rows of one year, in table order. */
  function InYear(rows: seq<CleanRow>, yearOf: string -> int, y: int): (g: seq<CleanRow>)
    ensures |g| <= |rows|
    ensures forall w :: CleanRectangular(rows, w) ==> CleanRectangular(g, w)
    ensures Binary(rows) ==> Binary(g)
  {
    if rows == [] then []
    else
      var init, last := rows[..|rows| - 1], rows[|rows| - 1];
      var g := InYear(init, yearOf, y) + (if yearOf(last.date) == y then [last] else []);
      assert forall w :: CleanRectangular(rows, w) ==> CleanRectangular(init, w) && |last.values| == w;
      g
  }

  /** A year's group holds rows of the table that have that year, and only those. */
  lemma {:induction false} InYearMembers(rows: seq<CleanRow>, yearOf: string -> int, y: int)
    ensures forall x :: x in InYear(rows, yearOf, y) <==> x in rows && yearOf(x.date) == y
  {
    if rows != [] {
      var init := rows[..|rows| - 1];
      InYearMembers(init, yearOf, y);
      assert rows == init + [rows[|rows| - 1]];
    }
  }

  /** A year's group holds each row of that year as many times as the table does, and no other row. */
  lemma {:induction false} InYearCounts(rows: seq<CleanRow>, yearOf: string -> int, y: int, x: CleanRow)
    ensures multiset(InYear(rows, yearOf, y))[x] == if yearOf(x.date) == y then multiset(rows)[x] else 0
  {
    if rows != [] {
      var init := rows[..|rows| - 1];
      var last := rows[|rows| - 1];
      InYearCounts(init, yearOf, y, x);
      assert rows == init + [last];
      assert multiset(rows) == multiset(init) + multiset{last};
      var kept := if yearOf(last.date) == y then [last] else [];
      assert InYear(rows, yearOf, y) == InYear(init, yearOf, y) + kept;
      assert multiset(InYear(rows, yearOf, y)) == multiset(InYear(init, yearOf, y)) + multiset(kept);
    }
  }

  /** A key's group is never empty. */
  lemma {:induction false} InYearNonEmpty(rows: seq<CleanRow>, yearOf: string -> int, y: int)
    requires y in Years(rows, yearOf)
    ensures |InYear(rows, yearOf, y)| > 0
  {
    var i :| 0 <= i < |rows| && yearOf(rows[i].date) == y;
    InYearMembers(rows, yearOf, y);
    assert rows[i] in InYear(rows, yearOf, y);
  }

  /** One count per key, in key order. */
  function CountsFor(rows: seq<CleanRow>, yearOf: string -> int, keys: seq<int>): (cs: seq<nat>)
    ensures |cs| == |keys|
    ensures forall j :: 0 <= j < |keys| ==> cs[j] == |InYear(rows, yearOf, keys[j])|
  {
    if keys == [] then []
    else [|InYear(rows, yearOf, keys[0])|] + CountsFor(rows, yearOf, keys[1..])
  }

  /** `groupby(year).count()` of the Date column. */
  function YearCounts(rows: seq<CleanRow>, yearOf: string -> int): seq<nat>
  {
    CountsFor(rows, yearOf, Years(rows, yearOf))
  }

  function Sum(s: seq<nat>): nat
  {
    if s == [] then 0 else s[0] + Sum(s[1..])
  }

  /** How many times `y` occurs in `keys`. */
  function Occurrences(keys: seq<int>, y: int): nat
  {
    if keys == [] then 0 else (if keys[0] == y then 1 else 0) + Occurrences(keys[1..], y)
  }

  /** In a strictly increasing sequence every key occurs at most once. */
  lemma {:induction false} OccurrencesInIncreasing(keys: seq<int>, y: int)
    requires StrictlyIncreasing(keys)
    ensures Occurrences(keys, y) == if y in keys then 1 else 0
  {
    if keys != [] {
      OccurrencesInIncreasing(keys[1..], y);
      if keys[0] == y {
        assert y !in keys[1..];
      }
    }
  }

  lemma {:induction false} CountsOfEmpty(yearOf: string -> int, keys: seq<int>)
    ensures Sum(CountsFor([], yearOf, keys)) == 0
  {
    if keys != [] {
      CountsOfEmpty(yearOf, keys[1..]);
    }
  }

  /** Appending a row adds one to the count of every key equal to its year. */
  lemma {:induction false} CountsAddRow(init: seq<CleanRow>, r: CleanRow, yearOf: string -> int, keys: seq<int>)
    ensures Sum(CountsFor(init + [r], yearOf, keys))
         == Sum(CountsFor(init, yearOf, keys)) + Occurrences(keys, yearOf(r.date))
  {
    if keys != [] {
      CountsAddRow(init, r, yearOf, keys[1..]);
      var rows := init + [r];
      assert rows[..|rows| - 1] == init;
    }
  }

  /** Over keys that cover every row's year once, the counts add up to the number of rows. */
  lemma {:induction false} CountsCoverRows(rows: seq<CleanRow>, yearOf: string -> int, keys: seq<int>)
    requires StrictlyIncreasing(keys)
    requires forall i :: 0 <= i < |rows| ==> yearOf(rows[i].date) in keys
    ensures Sum(CountsFor(rows, yearOf, keys)) == |rows|
  {
    if rows == [] {
      CountsOfEmpty(yearOf, keys);
    } else {
      var init, last := rows[..|rows| - 1], rows[|rows| - 1];
      assert rows == init + [last];
      forall i | 0 <= i < |init|
        ensures yearOf(init[i].date) in keys
      {
        assert init[i] == rows[i];
      }
      CountsCoverRows(init, yearOf, keys);
      CountsAddRow(init, last, yearOf, keys);
      OccurrencesInIncreasing(keys, yearOf(last.date));
    }
  }

  /**
   * The counts: one per key, each the number of rows of that year, so at
   * least 1, and together they account for every row exactly once.
   */
  lemma {:induction false} YearCountsSpec(rows: seq<CleanRow>, yearOf: string -> int)
    ensures |YearCounts(rows, yearOf)| == |Years(rows, yearOf)|
    ensures forall j :: 0 <= j < |Years(rows, yearOf)| ==>
      YearCounts(rows, yearOf)[j] == |InYear(rows, yearOf, Years(rows, yearOf)[j])| >= 1
    ensures Sum(YearCounts(rows, yearOf)) == |rows|
  {
    var ys := Years(rows, yearOf);
    forall i | 0 <= i < |rows| ensures yearOf(rows[i].date) in ys {
    }
    CountsCoverRows(rows, yearOf, ys);
    forall j | 0 <= j < |ys| ensures |InYear(rows, yearOf, ys[j])| >= 1 {
      InYearNonEmpty(rows, yearOf, ys[j]);
    }
  }

  /** Sum of one category column over some rows. */
  function ColumnSum(rows: seq<CleanRow>, width: nat, c: nat): real
    requires CleanRectangular(rows, width) && c < width
  {
    if rows == [] then 0.0
    else ColumnSum(rows[..|rows| - 1], width, c) + rows[|rows| - 1].values[c]
  }

  /** Number of rows whose category cell holds 1. */
  function Ones(rows: seq<CleanRow>, width: nat, c: nat): nat
    requires CleanRectangular(rows, width) && c < width
  {
    if rows == [] then 0
    else Ones(rows[..|rows| - 1], width, c) + (if rows[|rows| - 1].values[c] == 1.0 then 1 else 0)
  }

  /** Every category cell is 0 or 1 (sighted or not). */
  predicate Binary(rows: seq<CleanRow>)
  {
    forall i, c :: 0 <= i < |rows| && 0 <= c < |rows[i].values| ==>
      rows[i].values[c] == 0.0 || rows[i].values[c] == 1.0
  }

  /** With 0/1 cells the column sum is the number of sightings, and that is at most the number of rows. */
  lemma {:induction false} BinarySumIsOnes(rows: seq<CleanRow>, width: nat, c: nat)
    requires CleanRectangular(rows, width) && c < width
    requires Binary(rows)
    ensures ColumnSum(rows, width, c) == Ones(rows, width, c) as real
    ensures Ones(rows, width, c) <= |rows|
  {
    if rows != [] {
      BinarySumIsOnes(rows[..|rows| - 1], width, c);
    }
  }

  /** The mean of category `c` over a non-empty group of rows. */
  function Mean(g: seq<CleanRow>, width: nat, c: nat): real
    requires CleanRectangular(g, width) && c < width
    requires |g| > 0
  {
    ColumnSum(g, width, c) / |g| as real
  }

  /** The mean of category `c` over the rows of year `y`. */
  function Rate(rows: seq<CleanRow>, yearOf: string -> int, width: nat, y: int, c: nat): (rate: real)
    requires CleanRectangular(rows, width) && c < width
    requires y in Years(rows, yearOf)
  {
    InYearNonEmpty(rows, yearOf, y);
    Mean(InYear(rows, yearOf, y), width, c)
  }

  /** `groupby(year).mean()`: one row of category means per key, in key order. */
  function YearMeans(rows: seq<CleanRow>, yearOf: string -> int, width: nat): (m: seq<seq<real>>)
    requires CleanRectangular(rows, width)
    ensures |m| == |Years(rows, yearOf)|
    ensures forall j :: 0 <= j < |m| ==> |m[j]| == width
  {
    var ys := Years(rows, yearOf);
    seq(|ys|, j requires 0 <= j < |ys| =>
      seq(width, c requires 0 <= c < width => Rate(rows, yearOf, width, ys[j], c)))
  }

  /** `1 - df_perc`, element by element. */
  function Complement(m: seq<seq<real>>): (inv: seq<seq<real>>)
    ensures |inv| == |m|
    ensures forall j :: 0 <= j < |m| ==> |inv[j]| == |m[j]|
    ensures forall j, c :: 0 <= j < |m| && 0 <= c < |m[j]| ==> m[j][c] + inv[j][c] == 1.0
  {
    seq(|m|, j requires 0 <= j < |m| => seq(|m[j]|, c requires 0 <= c < |m[j]| => 1.0 - m[j][c]))
  }

  /** A group's mean, times the group's size, gives back the column sum. */
  lemma {:induction false} MeanTimesCount(g: seq<CleanRow>, width: nat, c: nat)
    requires CleanRectangular(g, width) && c < width
    requires |g| > 0
    ensures |g| as real * Mean(g, width, c) == ColumnSum(g, width, c)
  {
    QuotientTimesDivisor(ColumnSum(g, width, c), |g| as real, Mean(g, width, c));
  }

  /**
   * With 0/1 cells a group's mean is the share of its rows with a sighting,
   * a number in [0, 1], and the size times the mean, truncated, is exactly
   * the number of those rows.
   */
  lemma {:induction false} BinaryMeanIsShare(g: seq<CleanRow>, width: nat, c: nat)
    requires CleanRectangular(g, width) && c < width
    requires |g| > 0
    requires Binary(g)
    ensures 0.0 <= Mean(g, width, c) <= 1.0
    ensures Numerator(|g|, Mean(g, width, c)) == Ones(g, width, c) <= |g|
  {
    BinarySumIsOnes(g, width, c);
    QuotientTimesDivisor(ColumnSum(g, width, c), |g| as real, Mean(g, width, c));
    TruncOfWhole(Ones(g, width, c));
  }

  /** Exact division: the divisor times the quotient is the dividend, and a part of a whole is a share in [0, 1]. */
  lemma {:induction false} QuotientTimesDivisor(s: real, n: real, q: real)
    requires n > 0.0 && q == s / n
    ensures n * q == s
    ensures 0.0 <= s <= n ==> 0.0 <= q <= 1.0
  {
  }

  /**
   * The three tables line up key by key: position `j` of the counts, of the
   * means and of the complements all describe the year `Years(rows)[j]`;
   * with 0/1 cells every mean and every complement lies in [0, 1].
   */
  lemma {:induction false} YearlyTablesAligned(rows: seq<CleanRow>, yearOf: string -> int, width: nat, j: nat, c: nat)
    requires CleanRectangular(rows, width) && c < width
    requires j < |Years(rows, yearOf)|
    ensures YearCounts(rows, yearOf)[j] == |InYear(rows, yearOf, Years(rows, yearOf)[j])|
    ensures YearMeans(rows, yearOf, width)[j][c] == Rate(rows, yearOf, width, Years(rows, yearOf)[j], c)
    ensures Complement(YearMeans(rows, yearOf, width))[j][c] == 1.0 - YearMeans(rows, yearOf, width)[j][c]
    ensures Binary(rows) ==>
      && 0.0 <= YearMeans(rows, yearOf, width)[j][c] <= 1.0
      && 0.0 <= Complement(YearMeans(rows, yearOf, width))[j][c] <= 1.0
  {
    var ys := Years(rows, yearOf);
    InYearNonEmpty(rows, yearOf, ys[j]);
    if Binary(rows) {
      BinaryMeanIsShare(InYear(rows, yearOf, ys[j]), width, c);
    }
  }

  /** Python's `int(x)` on a float: truncation toward zero. */
  function Trunc(x: real): (r: int)
    ensures 0.0 <= x ==> r as real <= x < r as real + 1.0
    ensures x < 0.0 ==> r as real - 1.0 < x <= r as real
  {
    if x >= 0.0 then x.Floor else -((-x).Floor)
  }

  /** Truncating a whole number gives it back. */
  lemma TruncOfWhole(k: int)
    ensures Trunc(k as real) == k
  {
  }

  /** The number of sightings written on a bar: `int(count * mean)`, truncated, not rounded. */
  function Numerator(count: nat, mean: real): int
  {
    Trunc(count as real * mean)
  }

  /** The fraction written on a bar. */
  datatype Fraction = Fraction(numerator: int, denominator: nat)

  /** One fraction per key for category `c`: `int(count * mean) / count`. */
  function Annotations(counts: seq<nat>, means: seq<seq<real>>, c: nat): (fs: seq<Fraction>)
    requires |counts| == |means|
    requires forall j :: 0 <= j < |means| ==> c < |means[j]|
    ensures |fs| == |counts|
  {
    seq(|counts|, j requires 0 <= j < |counts| =>
      Fraction(Numerator(counts[j], means[j][c]), counts[j]))
  }

  /** The fraction of a position whose count and mean describe a 0/1 group: sightings over rows. */
  lemma {:induction false} AnnotationOfGroup(counts: seq<nat>, means: seq<seq<real>>, c: nat, j: nat,
                                             g: seq<CleanRow>, width: nat)
    requires |counts| == |means| && j < |counts|
    requires forall k :: 0 <= k < |means| ==> c < |means[k]|
    requires CleanRectangular(g, width) && c < width && |g| > 0 && Binary(g)
    requires counts[j] == |g| && means[j][c] == Mean(g, width, c)
    ensures Annotations(counts, means, c)[j] == Fraction(Ones(g, width, c), |g|)
  {
    BinaryMeanIsShare(g, width, c);
  }

  /**
   * With 0/1 cells, the numerator on year `j`'s bar is exactly the number of
   * that year's rows with a sighting, and the denominator is the year's row
   * count, so the fraction never exceeds 1.
   */
  lemma {:induction false} AnnotationCountsSightings(rows: seq<CleanRow>, yearOf: string -> int, width: nat, j: nat, c: nat)
    requires CleanRectangular(rows, width) && c < width
    requires Binary(rows)
    requires j < |Years(rows, yearOf)|
    ensures Annotations(YearCounts(rows, yearOf), YearMeans(rows, yearOf, width), c)[j]
         == Fraction(Ones(InYear(rows, yearOf, Years(rows, yearOf)[j]), width, c),
                     |InYear(rows, yearOf, Years(rows, yearOf)[j])|)
    ensures Ones(InYear(rows, yearOf, Years(rows, yearOf)[j]), width, c)
         <= |InYear(rows, yearOf, Years(rows, yearOf)[j])|
  {
    var ys := Years(rows, yearOf);
    var g := InYear(rows, yearOf, ys[j]);
    YearlyTablesAligned(rows, yearOf, width, j, c);
    InYearNonEmpty(rows, yearOf, ys[j]);
    BinaryMeanIsShare(g, width, c);
    AnnotationOfGroup(YearCounts(rows, yearOf), YearMeans(rows, yearOf, width), c, j, g, width);
  }

  // A worked example: three surveys, two in 2020 (one sighting) and one in 2021 (a sighting).

  const Survey: seq<CleanRow> := [CleanRow("2020-05-01", [1.0]), CleanRow("2020-07-01", [0.0]), CleanRow("2021-05-01", [1.0])]

  /** `yearOf` reads the three example dates as their calendar years. */
  predicate SurveyYears(yearOf: string -> int)
  {
    yearOf("2020-05-01") == 2020 && yearOf("2020-07-01") == 2020 && yearOf("2021-05-01") == 2021
  }

  /** The example's keys are 2020 and 2021. */
  lemma {:induction false} ExampleYears(yearOf: string -> int)
    requires SurveyYears(yearOf)
    ensures Years(Survey, yearOf) == [2020, 2021]
  {
    var r1, r2 := Survey[..1], Survey[..2];
    assert r2[..1] == r1 && r1[..0] == [];
    assert Years(r1, yearOf) == [2020];
    assert Years(r2, yearOf) == [2020];
    assert Insert([2020], 2021) == [2020] + Insert([], 2021) == [2020, 2021];
  }

  /** The example's 2020 group is its first two rows. */
  lemma {:induction false} ExampleGroup2020(yearOf: string -> int)
    requires SurveyYears(yearOf)
    ensures InYear(Survey, yearOf, 2020) == Survey[..2]
  {
    var r1, r2 := Survey[..1], Survey[..2];
    assert r2[..1] == r1 && r1[..0] == [];
    assert InYear(r1, yearOf, 2020) == r1;
    assert InYear(r2, yearOf, 2020) == r2;
  }

  /** The example's 2021 group is its last row. */
  lemma {:induction false} ExampleGroup2021(yearOf: string -> int)
    requires SurveyYears(yearOf)
    ensures InYear(Survey, yearOf, 2021) == [Survey[2]]
  {
    var r1, r2 := Survey[..1], Survey[..2];
    assert r2[..1] == r1 && r1[..0] == [];
    assert InYear(r1, yearOf, 2021) == [];
    assert InYear(r2, yearOf, 2021) == [];
  }

  /** The example's counts are 2 and 1. */
  lemma {:induction false} ExampleCounts(yearOf: string -> int)
    requires SurveyYears(yearOf)
    ensures YearCounts(Survey, yearOf) == [2, 1]
  {
    ExampleYears(yearOf);
    ExampleGroup2020(yearOf);
    ExampleGroup2021(yearOf);
    var cs := YearCounts(Survey, yearOf);
    assert cs[0] == 2 && cs[1] == 1;
  }

  /** The 2020 surveys hold one sighting in two, the 2021 survey one in one. */
  lemma {:induction false} ExampleGroupMeans()
    ensures Mean(Survey[..2], 1, 0) == 0.5
    ensures Mean([Survey[2]], 1, 0) == 1.0
  {
    var r1, r2 := Survey[..1], Survey[..2];
    assert r2[..1] == r1 && r1[..0] == [];
    assert ColumnSum(r1, 1, 0) == 1.0;
    assert ColumnSum(r2, 1, 0) == 1.0;
    assert [Survey[2]][..0] == [];
    assert ColumnSum([Survey[2]], 1, 0) == 1.0;
  }

  /** The example's sighting rates are 0.5 for 2020 and 1.0 for 2021. */
  lemma {:induction false} ExampleRates(yearOf: string -> int)
    requires SurveyYears(yearOf)
    ensures 2020 in Years(Survey, yearOf) && 2021 in Years(Survey, yearOf)
    ensures Rate(Survey, yearOf, 1, 2020, 0) == 0.5
    ensures Rate(Survey, yearOf, 1, 2021, 0) == 1.0
  {
    ExampleYears(yearOf);
    ExampleGroup2020(yearOf);
    ExampleGroup2021(yearOf);
    ExampleGroupMeans();
  }
}
