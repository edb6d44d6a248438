/** The candidates s, s-1, s-2, ... tried for a slug, and the first one that no other post holds. */
module Slugs {
  import opened Basics
  import opened Text

  function Digit(d: nat): char
    requires d < 10
  {
    (d + 48) as char
  }

  function Decimal(n: nat): (r: string)
    ensures r != []
  {
    if n < 10 then [Digit(n)] else Decimal(n / 10) + [Digit(n % 10)]
  }

  function Pow10(n: nat): (r: nat)
    ensures r >= 1
  {
    if n == 0 then 1 else 10 * Pow10(n - 1)
  }

  // The number that decimal digits denote.
  function NumberOf(digits: string): int {
    if digits == [] then 0 else NumberOf(Front(digits)) * 10 + (Last(digits) as int - '0' as int)
  }

  lemma {:induction false} DecimalIsNumber(n: nat)
    ensures NumberOf(Decimal(n)) == n
    ensures forall c :: c in Decimal(n) ==> '0' <= c <= '9'
    ensures n > 0 ==> Decimal(n)[0] != '0'
  {
    if n >= 10 {
      DecimalIsNumber(n / 10);
      FrontOfSnoc(Decimal(n / 10), Digit(n % 10));
    } else {
      FrontOfSnoc([], Digit(n));
      assert Decimal(n) == [] + [Digit(n)];
    }
  }

  lemma {:induction false} DecimalInjective(a: nat, b: nat)
    requires Decimal(a) == Decimal(b)
    ensures a == b
  {
    assert Last(Decimal(a)) == Last(Decimal(b));
    assert Front(Decimal(a)) == Front(Decimal(b));
    if a >= 10 && b >= 10 {
      DecimalInjective(a / 10, b / 10);
    }
  }

  lemma {:induction false} DecimalLength(n: nat, digits: nat)
    requires digits >= 1 && n < Pow10(digits)
    ensures |Decimal(n)| <= digits
  {
    if n >= 10 {
      assert digits > 1;
      DecimalLength(n / 10, digits - 1);
    }
  }

  function Candidate(slug: string, k: nat): string {
    if k == 0 then slug else slug + "-" + Decimal(k)
  }

  predicate IsNumeral(digits: string, n: nat) {
    && NumberOf(digits) == n && digits != [] && digits[0] != '0'
    && forall c :: c in digits ==> '0' <= c <= '9'
  }

  /** The first candidate is the base, each later one the base, a dash and its number in decimal digits. */
  lemma CandidatesAreNumbered(slug: string, k: nat)
    ensures Candidate(slug, 0) == slug
    ensures k > 0 ==> exists digits :: IsNumeral(digits, k) && Candidate(slug, k) == slug + "-" + digits
  {
    DecimalIsNumber(k);
    assert k > 0 ==> IsNumeral(Decimal(k), k);
  }

  lemma CandidateInjective(slug: string, j: nat, k: nat)
    requires Candidate(slug, j) == Candidate(slug, k)
    ensures j == k
  {
    if j != 0 && k != 0 {
      var n := |slug| + 1;
      assert Candidate(slug, j)[n..] == Decimal(j);
      assert Candidate(slug, k)[n..] == Decimal(k);
      DecimalInjective(j, k);
    }
  }

  /** Pigeonhole: n taken candidates are n different slugs. */
  lemma TakenCandidatesFit(taken: set<string>, slug: string, n: nat)
    requires forall k :: 0 <= k < n ==> Candidate(slug, k) in taken
    ensures n <= |taken|
  {
    var tried := seq(n, k requires 0 <= k < n => Candidate(slug, k));
    forall i, j | 0 <= i < j < n
      ensures tried[i] != tried[j]
    {
      if tried[i] == tried[j] {
        CandidateInjective(slug, i, j);
      }
    }
    DistinctFits(tried, taken);
  }

  /** The number of the first free candidate, given that the candidates before k are taken. */
  function FirstFree(taken: set<string>, slug: string, k: nat): (n: nat)
    requires forall j :: 0 <= j < k ==> Candidate(slug, j) in taken
    ensures k <= n <= |taken|
    ensures Candidate(slug, n) !in taken
    ensures forall j :: 0 <= j < n ==> Candidate(slug, j) in taken
    decreases |taken| - k
  {
    TakenCandidatesFit(taken, slug, k);
    if Candidate(slug, k) !in taken then k
    else
      TakenCandidatesFit(taken, slug, k + 1);
      FirstFree(taken, slug, k + 1)
  }

  function UniqueSlug(taken: set<string>, slug: string): string {
    Candidate(slug, FirstFree(taken, slug, 0))
  }

  /** Any free candidate with only taken ones before it is the slug that the search returns. */
  lemma FirstFreeIsUnique(taken: set<string>, slug: string, k: nat)
    requires Candidate(slug, k) !in taken
    requires forall j :: 0 <= j < k ==> Candidate(slug, j) in taken
    ensures UniqueSlug(taken, slug) == Candidate(slug, k)
  {
    var n := FirstFree(taken, slug, 0);
    assert n == k;
  }

  const SLUG_COLUMN := 250

  // The digits that the column leaves for the counter.
  const COUNTER_DIGITS := SLUG_COLUMN - SLUG_LIMIT - 1

  /** A slug is at most the base, a dash and as many digits as it takes to count the posts. */
  lemma SlugLength(taken: set<string>, title: string, digits: nat)
    requires digits >= 1 && |taken| < Pow10(digits)
    ensures |UniqueSlug(taken, Slugify(title))| <= SLUG_LIMIT + 1 + digits
  {
    SlugifyShape(title);
    DecimalLength(FirstFree(taken, Slugify(title), 0), digits);
  }

  /** With fewer than 10^49 posts, every slug fits into its column. */
  lemma SlugFitsColumn(taken: set<string>, title: string)
    requires |taken| < Pow10(COUNTER_DIGITS)
    ensures |UniqueSlug(taken, Slugify(title))| <= SLUG_COLUMN
  {
    SlugLength(taken, title, COUNTER_DIGITS);
  }
}
