/**
 * The script as a whole, without its I/O: the title and sheet name are made
 * file-name safe, the table is sanitised and aggregated by year, one fraction
 * per year is computed for every category's chart, and a free output path is
 * chosen.
 */
module Script {
  import opened FileNames
  import opened Cleaning
  import opened Yearly
  import opened OutputPath

  /** Everything the script derives before drawing and saving the figure. */
  datatype Plan = Plan(
    title: string,
    sheet: string,
    years: seq<int>,
    counts: seq<nat>,
    means: seq<seq<real>>,
    complements: seq<seq<real>>,
    annotations: seq<seq<Fraction>>,
    path: string)

  method DataToGraph(rawTitle: string, rawSheet: string, table: seq<Row>, width: nat,
                     yearOf: string -> int, existing: set<string>) returns (plan: Plan)
    requires Rectangular(table, width)
    ensures plan.title == if ContainsSubstring(rawTitle, UnnamedMarker) then FallbackTitle else Sanitized(rawTitle)
    ensures plan.sheet == Sanitized(rawSheet)
    ensures plan.years == Years(Sanitize(table), yearOf)
    ensures plan.counts == YearCounts(Sanitize(table), yearOf)
    ensures plan.means == YearMeans(Sanitize(table), yearOf, width)
    ensures plan.complements == Complement(plan.means)
    ensures Sum(plan.counts) == |DateShaped(table)|
    ensures |plan.annotations| == width
    ensures forall c :: 0 <= c < width ==> plan.annotations[c] == Annotations(plan.counts, plan.means, c)
    ensures plan.path !in existing
    ensures exists n: nat :: plan.path == Candidate(BaseName(plan.sheet, plan.title), n) + Extension
                     && forall k :: 0 <= k < n ==> Candidate(BaseName(plan.sheet, plan.title), k) + Extension in existing
  {
    var title := ResolveTitle(rawTitle);
    var sheet := StripSpecialChars(rawSheet);

    var rows := Sanitize(table);
    var years := Years(rows, yearOf);
    var counts := YearCounts(rows, yearOf);
    var means := YearMeans(rows, yearOf, width);
    var complements := Complement(means);
    CountsCoverCleanRows(table, width, yearOf);
    var annotations := AnnotateCharts(counts, means, width);

    var path, n := ChooseOutputPath(BaseName(sheet, title), existing);
    plan := Plan(title, sheet, years, counts, means, complements, annotations, path);
  }

  /** The yearly counts of the sanitised table account for every date-shaped row exactly once. */
  lemma {:induction false} CountsCoverCleanRows(table: seq<Row>, width: nat, yearOf: string -> int)
    requires Rectangular(table, width)
    ensures Sum(YearCounts(Sanitize(table), yearOf)) == |DateShaped(table)|
  {
    SanitizeSpec(table, width);
    YearCountsSpec(Sanitize(table), yearOf);
  }

  /** The plotting loop's arithmetic: one list of bar fractions per category chart, in column order. */
  method AnnotateCharts(counts: seq<nat>, means: seq<seq<real>>, width: nat) returns (annotations: seq<seq<Fraction>>)
    requires |counts| == |means|
    requires forall j :: 0 <= j < |means| ==> |means[j]| == width
    ensures |annotations| == width
    ensures forall c :: 0 <= c < width ==> annotations[c] == Annotations(counts, means, c)
  {
    annotations := [];
    for c := 0 to width
      invariant |annotations| == c
      invariant forall k :: 0 <= k < c ==> annotations[k] == Annotations(counts, means, k)
    {
      annotations := annotations + [Annotations(counts, means, c)];
    }
  }
}
