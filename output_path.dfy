/**
 * Choosing the output file: the base name is built from the sanitised sheet
 * name and title; while a file of that name already exists, the number in
 * parentheses after the base is raised, starting at 1.
 *
 * The file system is the finite set of paths that already exist.
 */
module OutputPath {

  const Extension: string := ".png"

  /** `./graphs/<sheet> - <title> bar graphs`, without the extension. */
  function BaseName(sheet: string, title: string): string
  {
    "./graphs/" + sheet + " - " + title + " bar graphs"
  }

  /** The character of a decimal digit. */
  function DigitChar(d: nat): (ch: char)
    requires d < 10
    ensures '0' <= ch <= '9'
  {
    ('0' as int + d) as char
  }

  /** Python's `str(n)` for a natural number: its decimal digits, without leading zeros. */
  function Decimal(n: nat): (s: string)
    ensures |s| >= 1
    ensures forall i :: 0 <= i < |s| ==> '0' <= s[i] <= '9'
    ensures s[0] == '0' ==> n == 0
  {
    if n < 10 then [DigitChar(n)] else Decimal(n / 10) + [DigitChar(n % 10)]
  }

  /** The number that a string of decimal digits denotes. */
  function ParseDecimal(s: string): nat
    requires forall i :: 0 <= i < |s| ==> '0' <= s[i] <= '9'
  {
    if s == [] then 0 else ParseDecimal(s[..|s| - 1]) * 10 + (s[|s| - 1] as int - '0' as int)
  }

  /** Reading back the decimal form of `n` gives `n`. */
  lemma {:induction false} DecimalRoundTrip(n: nat)
    ensures ParseDecimal(Decimal(n)) == n
  {
    if n >= 10 {
      DecimalRoundTrip(n / 10);
      var s := Decimal(n);
      assert s[..|s| - 1] == Decimal(n / 10);
    }
  }

  /** Different numbers have different decimal forms. */
  lemma {:induction false} DecimalInjective(m: nat, n: nat)
    requires Decimal(m) == Decimal(n)
    ensures m == n
  {
    DecimalRoundTrip(m);
    DecimalRoundTrip(n);
  }

  /** The `k`-th name tried: the base itself, then `base (1)`, `base (2)`, ... */
  function Candidate(base: string, k: nat): string
  {
    if k == 0 then base else base + " (" + Decimal(k) + ")"
  }

  /** Two different attempts never give the same path. */
  lemma {:induction false} CandidateInjective(base: string, j: nat, k: nat)
    requires Candidate(base, j) + Extension == Candidate(base, k) + Extension
    ensures j == k
  {
    var x, y := Candidate(base, j), Candidate(base, k);
    assert x == (x + Extension)[..|x|];
    assert y == (y + Extension)[..|y|];
    if j != 0 && k != 0 {
      var b := |base| + 2;
      assert Decimal(j) == x[b..|x| - 1];
      assert Decimal(k) == y[b..|y| - 1];
      DecimalInjective(j, k);
    }
  }

  /** The paths of the first `i` attempts. */
  ghost function Tried(base: string, i: nat): set<string>
  {
    set k | 0 <= k < i :: Candidate(base, k) + Extension
  }

  /** The first `i` attempts are `i` different paths. */
  lemma {:induction false} TriedSize(base: string, i: nat)
    ensures |Tried(base, i)| == i
  {
    if i > 0 {
      TriedSize(base, i - 1);
      var p := Candidate(base, i - 1) + Extension;
      forall k | 0 <= k < i - 1
        ensures Candidate(base, k) + Extension != p
      {
        if Candidate(base, k) + Extension == p {
          CandidateInjective(base, k, i - 1);
        }
      }
      assert Tried(base, i) == Tried(base, i - 1) + {p};
      assert p !in Tried(base, i - 1);
    }
  }

  /** A subset of a finite set is no larger. */
  lemma {:induction false} SubsetNoLarger(a: set<string>, b: set<string>)
    requires a <= b
    ensures |a| <= |b|
    decreases |a|
  {
    if a != {} {
      var x :| x in a;
      SubsetNoLarger(a - {x}, b - {x});
    }
  }

  /**
   * The search for a free name: the result is the first of `base.png`,
   * `base (1).png`, `base (2).png`, ... that is not an existing path.
   * It ends because the attempts are pairwise different and only finitely
   * many paths exist.
   */
  method ChooseOutputPath(base: string, existing: set<string>) returns (path: string, n: nat)
    ensures path == Candidate(base, n) + Extension
    ensures path !in existing
    ensures forall k :: 0 <= k < n ==> Candidate(base, k) + Extension in existing
    ensures n <= |existing|
    ensures base + Extension !in existing ==> path == base + Extension
  {
    var name := base;
    var i := 1;
    while name + Extension in existing
      invariant 1 <= i
      invariant name == Candidate(base, i - 1)
      invariant forall k :: 0 <= k < i - 1 ==> Candidate(base, k) + Extension in existing
      invariant i - 1 <= |existing|
      decreases |existing| - (i - 1)
    {
      assert Tried(base, i) <= existing;
      TriedSize(base, i);
      SubsetNoLarger(Tried(base, i), existing);
      name := base + " (" + Decimal(i) + ")";
      i := i + 1;
    }
    path, n := name + Extension, i - 1;
  }

  /** A second run after `base.png` was written picks `base (1).png`, a third one `base (2).png`. */
  lemma {:induction false} RepeatedRuns(base: string)
    ensures Candidate(base, 1) + Extension !in {base + Extension}
    ensures Candidate(base, 2) + Extension !in {base + Extension, Candidate(base, 1) + Extension}
    ensures Candidate(base, 1) == base + " (1)" && Candidate(base, 2) == base + " (2)"
  {
    assert Decimal(1) == "1" && Decimal(2) == "2";
    if Candidate(base, 1) + Extension == Candidate(base, 0) + Extension {
      CandidateInjective(base, 1, 0);
    }
    if Candidate(base, 2) + Extension == Candidate(base, 0) + Extension {
      CandidateInjective(base, 2, 0);
    }
    if Candidate(base, 2) + Extension == Candidate(base, 1) + Extension {
      CandidateInjective(base, 2, 1);
    }
  }
}
