/**
 * The version handling of the release script: reading `<Version>X.Y.Z</Version>`
 * from the project file, computing the bumped version, and writing it back.
 *
 * The script uses two different regular expressions (scripts/version-and-commit.mjs:68
 * and :110). Both are modelled as they are:
 *   - reading uses `<Version>(\d+)\.(\d+)\.(\d+)<\/Version>`  (NumericAt),
 *   - rewriting uses `<Version>[^<]+<\/Version>`              (ElementAt),
 * each taking its leftmost match. Greedy `\d+` and `[^<]+` never need to back
 * off here (the character after each run cannot belong to the run), so a match
 * at a given position is determined by the maximal run.
 */
module ReleaseVersion {
  import opened Wrappers
  import opened Text

  datatype SemVer = SemVer(major: nat, minor: nat, patch: nat)

  datatype BumpKind = Major | Minor | Patch

  const OpenTag: string := "<Version>"
  const CloseTag: string := "</Version>"

  /** `<Version>` spelled out at `p`, character by character. */
  predicate OpenTagAt(s: string, p: int) {
    && 0 <= p && p + 9 <= |s|
    && s[p] == '<' && s[p + 1] == 'V' && s[p + 2] == 'e' && s[p + 3] == 'r' && s[p + 4] == 's'
    && s[p + 5] == 'i' && s[p + 6] == 'o' && s[p + 7] == 'n' && s[p + 8] == '>'
  }

  /** `</Version>` spelled out at `p`, character by character. */
  predicate CloseTagAt(s: string, p: int) {
    && 0 <= p && p + 10 <= |s|
    && s[p] == '<' && s[p + 1] == '/' && s[p + 2] == 'V' && s[p + 3] == 'e' && s[p + 4] == 'r'
    && s[p + 5] == 's' && s[p + 6] == 'i' && s[p + 7] == 'o' && s[p + 8] == 'n' && s[p + 9] == '>'
  }

  // ---------------------------------------------------------------------------
  // decimal numbers
  // ---------------------------------------------------------------------------

  predicate IsDigit(c: char) {
    '0' <= c <= '9'
  }

  predicate AllDigits(ds: string) {
    forall k :: 0 <= k < |ds| ==> IsDigit(ds[k])
  }

  /** The value of a decimal digit (only ever applied to digits). */
  function DigitValue(c: char): nat {
    if IsDigit(c) then c as int - '0' as int else 0
  }

  /** `parseInt(ds, 10)` for a run of ASCII digits, the only strings it is applied to. */
  function ParseDecimal(ds: string): nat {
    if |ds| == 0 then 0
    else ParseDecimal(ds[..|ds| - 1]) * 10 + DigitValue(ds[|ds| - 1])
  }

  /** `parseInt` ignores leading zeros: `007` reads as 7. */
  lemma {:induction false} LeadingZeroIgnored(ds: string)
    ensures ParseDecimal("0" + ds) == ParseDecimal(ds)
  {
    if |ds| > 0 {
      var front := ds[..|ds| - 1];
      assert ("0" + ds)[..|"0" + ds| - 1] == "0" + front;
      assert ("0" + ds)[|"0" + ds| - 1] == ds[|ds| - 1];
      LeadingZeroIgnored(front);
    }
  }

  /**
   * A number rendered in a template literal: a non-empty digit string without a leading
   * zero (other than `0` itself) that reads back as the number.
   */
  function Decimal(n: nat): (ds: string)
    ensures |ds| >= 1 && AllDigits(ds)
    ensures |ds| == 1 || ds[0] != '0'
    ensures ParseDecimal(ds) == n
  {
    if n < 10 then ['0' + n as char]
    else
      var front := Decimal(n / 10);
      var ds := front + ['0' + (n % 10) as char];
      assert ds[..|ds| - 1] == front;
      ds
  }

  /** A digit string with a non-zero leading digit reads as a positive number. */
  lemma {:induction false} LeadingNonZeroIsPositive(ds: string)
    requires |ds| >= 1 && AllDigits(ds) && ds[0] != '0'
    ensures ParseDecimal(ds) >= 1
  {
    if |ds| > 1 {
      LeadingNonZeroIsPositive(ds[..|ds| - 1]);
    }
  }

  /** The text `${n}` prints is the only canonical digit string that reads back as n. */
  lemma {:induction false} DecimalUnique(ds: string, n: nat)
    requires |ds| >= 1 && AllDigits(ds) && (|ds| == 1 || ds[0] != '0')
    requires ParseDecimal(ds) == n
    ensures ds == Decimal(n)
  {
    if |ds| > 1 {
      var front := ds[..|ds| - 1];
      LeadingNonZeroIsPositive(front);
      assert n / 10 == ParseDecimal(front) && n % 10 == DigitValue(ds[|ds| - 1]);
      DecimalUnique(front, n / 10);
      assert ds == front + [ds[|ds| - 1]];
    }
  }

  // ---------------------------------------------------------------------------
  // bumping (scripts/version-and-commit.mjs:88-101)
  // ---------------------------------------------------------------------------

  /** Semantic Versioning 2.0.0, item 11: precedence compares major, then minor, then patch. */
  predicate Precedes(v: SemVer, w: SemVer) {
    || v.major < w.major
    || (v.major == w.major && v.minor < w.minor)
    || (v.major == w.major && v.minor == w.minor && v.patch < w.patch)
  }

  /** Items 6-8 of Semantic Versioning 2.0.0; the bumped version always has higher precedence. */
  function Bump(v: SemVer, kind: BumpKind): (w: SemVer)
    ensures Precedes(v, w)
  {
    match kind
    case Major => SemVer(v.major + 1, 0, 0)
    case Minor => SemVer(v.major, v.minor + 1, 0)
    case Patch => SemVer(v.major, v.minor, v.patch + 1)
  }

  /** `${major}.${minor}.${patch}` */
  function Format(v: SemVer): string {
    Decimal(v.major) + "." + Decimal(v.minor) + "." + Decimal(v.patch)
  }

  /** The script's accepted spellings of the bump kinds. */
  function KindOf(bumpType: string): Option<BumpKind> {
    if bumpType == "major" then Some(Major)
    else if bumpType == "minor" then Some(Minor)
    else if bumpType == "patch" then Some(Patch)
    else None
  }

  /** `calculateNewVersion`: the bumped version as text, or the error it throws for any other kind. */
  function CalculateNewVersion(current: SemVer, bumpType: string): (r: Result<string, string>)
    ensures r.Ok? <==> KindOf(bumpType).Some?
    ensures r.Ok? ==> r.value == Format(Bump(current, KindOf(bumpType).value))
    ensures r.Err? ==> r.error == "Invalid bump type: " + bumpType
  {
    if bumpType == "major" then Ok(Decimal(current.major + 1) + ".0.0")
    else if bumpType == "minor" then Ok(Decimal(current.major) + "." + Decimal(current.minor + 1) + ".0")
    else if bumpType == "patch" then Ok(Decimal(current.major) + "." + Decimal(current.minor) + "." + Decimal(current.patch + 1))
    else Err("Invalid bump type: " + bumpType)
  }

  lemma BumpExamples()
    ensures Bump(SemVer(1, 2, 3), Major) == SemVer(2, 0, 0)
    ensures Bump(SemVer(1, 2, 3), Minor) == SemVer(1, 3, 0)
    ensures Bump(SemVer(1, 2, 3), Patch) == SemVer(1, 2, 4)
  {
  }

  // ---------------------------------------------------------------------------
  // scanning primitives
  // ---------------------------------------------------------------------------

  /** End of the maximal run of digits starting at `p`. */
  function DigitsEnd(s: string, p: nat): (e: nat)
    requires p <= |s|
    ensures p <= e <= |s|
    ensures forall k :: p <= k < e ==> IsDigit(s[k])
    ensures e == |s| || !IsDigit(s[e])
    decreases |s| - p
  {
    if p < |s| && IsDigit(s[p]) then DigitsEnd(s, p + 1) else p
  }

  /** Index of the first `<` at or after `p`, or the length when there is none. */
  function NextLessThan(s: string, p: nat): (k: nat)
    requires p <= |s|
    ensures p <= k <= |s|
    ensures forall j :: p <= j < k ==> s[j] != '<'
    ensures k == |s| || s[k] == '<'
    decreases |s| - p
  {
    if p < |s| && s[p] != '<' then NextLessThan(s, p + 1) else p
  }

  lemma DigitsEndIs(s: string, p: nat, e: nat)
    requires p <= e <= |s|
    requires forall k :: p <= k < e ==> IsDigit(s[k])
    requires e == |s| || !IsDigit(s[e])
    ensures DigitsEnd(s, p) == e
  {
  }

  lemma NextLessThanIs(s: string, p: nat, k: nat)
    requires p <= k <= |s|
    requires forall j :: p <= j < k ==> s[j] != '<'
    requires k == |s| || s[k] == '<'
    ensures NextLessThan(s, p) == k
  {
  }

  // ---------------------------------------------------------------------------
  // the two patterns
  // ---------------------------------------------------------------------------

  /** Where the three digit runs of a numeric match end (each run is followed by `.`, `.`, `</Version>`). */
  datatype NumericMatch = NumericMatch(d1: nat, d2: nat, d3: nat)

  /** `(\d+)\.(\d+)\.(\d+)<\/Version>` matched at `a`: where its three digit runs end. */
  function RunsFrom(s: string, a: nat): (m: Option<NumericMatch>)
    requires a <= |s|
    ensures m.Some? ==> && a < m.value.d1 < m.value.d2 < m.value.d3 < |s|
                        && DigitsEnd(s, a) == m.value.d1 && s[m.value.d1] == '.'
                        && DigitsEnd(s, m.value.d1 + 1) == m.value.d2 && s[m.value.d2] == '.'
                        && DigitsEnd(s, m.value.d2 + 1) == m.value.d3 && CloseTagAt(s, m.value.d3)
  {
    var d1 := DigitsEnd(s, a);
    if d1 == a || d1 == |s| || s[d1] != '.' then None
    else
      var d2 := DigitsEnd(s, d1 + 1);
      if d2 == d1 + 1 || d2 == |s| || s[d2] != '.' then None
      else
        var d3 := DigitsEnd(s, d2 + 1);
        if d3 == d2 + 1 || !CloseTagAt(s, d3) then None
        else Some(NumericMatch(d1, d2, d3))
  }

  /** `<Version>(\d+)\.(\d+)\.(\d+)<\/Version>` matched at `p`: where its three digit runs end. */
  function NumericAt(s: string, p: nat): (m: Option<NumericMatch>)
    ensures m.Some? ==> && OpenTagAt(s, p)
                        && p + |OpenTag| < m.value.d1 < m.value.d2 < m.value.d3 < |s|
                        && DigitsEnd(s, p + |OpenTag|) == m.value.d1 && s[m.value.d1] == '.'
                        && DigitsEnd(s, m.value.d1 + 1) == m.value.d2 && s[m.value.d2] == '.'
                        && DigitsEnd(s, m.value.d2 + 1) == m.value.d3 && CloseTagAt(s, m.value.d3)
  {
    if !OpenTagAt(s, p) then None else RunsFrom(s, p + |OpenTag|)
  }

  /** Index just past the `</Version>` of a numeric match. */
  function MatchEnd(m: NumericMatch): nat {
    m.d3 + |CloseTag|
  }

  /** The three groups delimited by `m` for a match at `p`, each through `parseInt`. */
  function GroupsOf(s: string, p: nat, m: NumericMatch): SemVer
    requires p + |OpenTag| <= m.d1 < m.d2 < m.d3 <= |s|
  {
    SemVer(ParseDecimal(s[p + |OpenTag|..m.d1]), ParseDecimal(s[m.d1 + 1..m.d2]), ParseDecimal(s[m.d2 + 1..m.d3]))
  }

  /** The version captured by the numeric match at `p`. */
  function MatchVersion(s: string, p: nat): SemVer
    requires NumericAt(s, p).Some?
  {
    GroupsOf(s, p, NumericAt(s, p).value)
  }

  /** `<Version>[^<]+<\/Version>` matched at `p`: the end of the match. */
  function ElementAt(s: string, p: nat): (e: Option<nat>)
    ensures e.Some? ==> && OpenTagAt(s, p)
                        && p + |OpenTag| < e.value - |CloseTag| && e.value <= |s|
                        && CloseTagAt(s, e.value - |CloseTag|)
                        && forall k :: p + |OpenTag| <= k < e.value - |CloseTag| ==> s[k] != '<'
  {
    if !OpenTagAt(s, p) then None
    else
      var k := NextLessThan(s, p + |OpenTag|);
      if k == p + |OpenTag| || !CloseTagAt(s, k) then None
      else Some(k + |CloseTag|)
  }

  /**
   * The converse: an opening tag, a non-empty run free of `<`, then a closing tag is a match
   * of the rewrite pattern, ending just past that closing tag.
   */
  lemma ElementAtMatches(s: string, p: nat, c: nat)
    requires OpenTagAt(s, p) && p + |OpenTag| < c && CloseTagAt(s, c)
    requires forall k :: p + |OpenTag| <= k < c ==> s[k] != '<'
    ensures ElementAt(s, p) == Some(c + |CloseTag|)
  {
    NextLessThanIs(s, p + |OpenTag|, c);
  }

  /** Leftmost position at or after `from` where the numeric pattern matches. */
  function FirstNumeric(s: string, from: nat): (r: Option<nat>)
    ensures r.Some? ==> from <= r.value && NumericAt(s, r.value).Some?
    ensures forall q: nat :: from <= q && (r.None? || q < r.value) ==> NumericAt(s, q).None?
    decreases |s| + 1 - from
  {
    if from > |s| then None
    else if NumericAt(s, from).Some? then Some(from)
    else FirstNumeric(s, from + 1)
  }

  /** Leftmost position at or after `from` where the rewrite pattern matches. */
  function FirstElement(s: string, from: nat): (r: Option<nat>)
    ensures r.Some? ==> from <= r.value && ElementAt(s, r.value).Some?
    ensures forall q: nat :: from <= q && (r.None? || q < r.value) ==> ElementAt(s, q).None?
    decreases |s| + 1 - from
  {
    if from > |s| then None
    else if ElementAt(s, from).Some? then Some(from)
    else FirstElement(s, from + 1)
  }

  // ---------------------------------------------------------------------------
  // getCurrentVersion and updateCsproj
  // ---------------------------------------------------------------------------

  /**
   * `getCurrentVersion` (scripts/version-and-commit.mjs:66-80): the triple of the leftmost numeric
   * element; no version exactly when the numeric pattern matches nowhere.
   */
  function ParseVersion(csproj: string): (r: Option<SemVer>)
    ensures r.None? <==> forall p: nat :: NumericAt(csproj, p).None?
    ensures r.Some? ==> exists p: nat :: NumericAt(csproj, p).Some? && MatchVersion(csproj, p) == r.value
  {
    match FirstNumeric(csproj, 0)
    case None => None
    case Some(p) => Some(MatchVersion(csproj, p))
  }

  /**
   * The string part of `updateCsproj` (scripts/version-and-commit.mjs:107-113): `String.replace`
   * with a non-global pattern, so only the leftmost `<Version>[^<]+</Version>` is replaced.
   * The replacement is inserted literally: `replace` would expand `$&`, `$1` and the like, but
   * the script only ever passes digits and dots (`Format`), which contain no `$`.
   */
  function RewriteVersion(csproj: string, newVersion: string): (r: string)
    ensures FirstElement(csproj, 0).None? ==> r == csproj
  {
    match FirstElement(csproj, 0)
    case None => csproj
    case Some(i) => csproj[..i] + OpenTag + newVersion + CloseTag + csproj[ElementAt(csproj, i).value..]
  }

  // ---------------------------------------------------------------------------
  // properties of the two patterns
  // ---------------------------------------------------------------------------

  /** The spelled-out opening tag is the literal `<Version>`. */
  lemma OpenTagAtIsOccurrence(s: string, p: nat)
    ensures OpenTagAt(s, p) <==> OccursAt(s, OpenTag, p)
  {
    if OccursAt(s, OpenTag, p) {
      forall k | 0 <= k < |OpenTag| ensures s[p + k] == OpenTag[k] {
        assert s[p + k] == s[p..p + |OpenTag|][k];
      }
    }
    if OpenTagAt(s, p) {
      forall k | 0 <= k < |OpenTag| ensures s[p..p + |OpenTag|][k] == OpenTag[k] {
        assert s[p..p + |OpenTag|][k] == s[p + k];
      }
    }
  }

  /** The spelled-out closing tag is the literal `</Version>`. */
  lemma CloseTagAtIsOccurrence(s: string, p: nat)
    ensures CloseTagAt(s, p) <==> OccursAt(s, CloseTag, p)
  {
    if OccursAt(s, CloseTag, p) {
      forall k | 0 <= k < |CloseTag| ensures s[p + k] == CloseTag[k] {
        assert s[p + k] == s[p..p + |CloseTag|][k];
      }
    }
    if CloseTagAt(s, p) {
      forall k | 0 <= k < |CloseTag| ensures s[p..p + |CloseTag|][k] == CloseTag[k] {
        assert s[p..p + |CloseTag|][k] == s[p + k];
      }
    }
  }

  /** Every numeric element is also an element of the rewrite pattern, with the same extent. */
  lemma NumericIsElement(s: string, p: nat)
    requires NumericAt(s, p).Some?
    ensures ElementAt(s, p) == Some(MatchEnd(NumericAt(s, p).value))
  {
    var a := p + |OpenTag|;
    var d3 := NumericAt(s, p).value.d3;
    NextLessThanIs(s, a, d3);
  }

  /**
   * An element that starts before a `<V` at index `i` ends at or before `i`: neither tag has
   * a `<` after its first character, and `</` cannot start at a `<V`.
   */
  lemma ElementEndsBefore(t: string, j: nat, i: nat)
    requires ElementAt(t, j).Some?
    requires j < i && i + 1 < |t| && t[i] == '<' && t[i + 1] == 'V'
    ensures ElementAt(t, j).value <= i
  {
    var a := j + |OpenTag|;
    assert a <= i;
    var k := NextLessThan(t, a);
    assert k <= i;
    assert k != i;
  }

  /** An element depends only on the text up to its end. */
  lemma ElementLocal(s: string, t: string, j: nat)
    requires ElementAt(t, j).Some?
    requires ElementAt(t, j).value <= |s| && s[..ElementAt(t, j).value] == t[..ElementAt(t, j).value]
    ensures ElementAt(s, j) == ElementAt(t, j)
  {
    var e := ElementAt(t, j).value;
    var a := j + |OpenTag|;
    var k := NextLessThan(t, a);
    SamePrefixSlice(s, t, e, j, a);
    OpenTagAtIsOccurrence(t, j);
    OpenTagAtIsOccurrence(s, j);
    forall x | a <= x < k ensures s[x] != '<' {
      SamePrefixIndex(s, t, e, x);
    }
    SamePrefixIndex(s, t, e, k);
    NextLessThanIs(s, a, k);
    SamePrefixSlice(s, t, e, k, e);
    CloseTagAtIsOccurrence(t, k);
    CloseTagAtIsOccurrence(s, k);
  }

  lemma SamePrefixSlice(s: string, t: string, e: nat, x: nat, y: nat)
    requires x <= y <= e <= |s| && e <= |t| && s[..e] == t[..e]
    ensures s[x..y] == t[x..y]
  {
    forall k | 0 <= k < y - x ensures s[x..y][k] == t[x..y][k] {
      SamePrefixIndex(s, t, e, x + k);
    }
  }

  lemma SamePrefixIndex(s: string, t: string, e: nat, x: nat)
    requires x < e <= |s| && e <= |t| && s[..e] == t[..e]
    ensures s[x] == t[x]
  {
    assert s[x] == s[..e][x];
    assert t[x] == t[..e][x];
  }

  /** Reading `u` off the text at `x` leaves `rest`. */
  lemma Peel(t: string, x: nat, u: string, rest: string)
    requires x <= |t| && t[x..] == u + rest
    ensures x + |u| <= |t| && t[x + |u|..] == rest && t[x..x + |u|] == u
    ensures OccursAt(t, u, x)
    ensures rest != [] ==> t[x + |u|] == rest[0]
  {
    assert t[x + |u|..] == t[x..][|u|..];
    assert t[x..x + |u|] == t[x..][..|u|];
    if rest != [] {
      assert t[x + |u|] == t[x..][|u|];
    }
  }

  /** Where the digits `ds` are followed by a non-digit at `e`, the digit run from `p` ends at `e`. */
  lemma DigitsEndOfRun(t: string, p: nat, e: nat, ds: string)
    requires p <= e <= |t| && t[p..e] == ds && AllDigits(ds)
    requires e == |t| || !IsDigit(t[e])
    ensures DigitsEnd(t, p) == e
  {
    forall k | p <= k < e ensures IsDigit(t[k]) {
      assert t[k] == t[p..e][k - p];
    }
    DigitsEndIs(t, p, e);
  }

  /** The text up to the end of a digit run is all digits. */
  lemma RunIsDigits(s: string, p: nat, e: nat)
    requires p <= e <= |s| && DigitsEnd(s, p) == e
    ensures AllDigits(s[p..e])
  {
    forall k | 0 <= k < e - p ensures IsDigit(s[p..e][k]) {
      assert s[p..e][k] == s[p + k];
    }
  }

  /** The three groups the numeric pattern captures are non-empty runs of digits, as `(\d+)` demands. */
  lemma MatchGroupsAreDigits(s: string, p: nat)
    requires NumericAt(s, p).Some?
    ensures var m := NumericAt(s, p).value;
            && AllDigits(s[p + |OpenTag|..m.d1]) && AllDigits(s[m.d1 + 1..m.d2]) && AllDigits(s[m.d2 + 1..m.d3])
            && p + |OpenTag| < m.d1 && m.d1 + 1 < m.d2 && m.d2 + 1 < m.d3
  {
    var m := NumericAt(s, p).value;
    RunIsDigits(s, p + |OpenTag|, m.d1);
    RunIsDigits(s, m.d1 + 1, m.d2);
    RunIsDigits(s, m.d2 + 1, m.d3);
  }

  /** Three digit runs `M`, `N`, `P` separated by dots between the tags make a numeric element. */
  lemma NumericAtRuns(t: string, p: nat, d1: nat, d2: nat, d3: nat, M: string, N: string, P: string)
    requires OpenTagAt(t, p)
    requires |M| >= 1 && AllDigits(M) && |N| >= 1 && AllDigits(N) && |P| >= 1 && AllDigits(P)
    requires d1 == p + |OpenTag| + |M| && d2 == d1 + 1 + |N| && d3 == d2 + 1 + |P| && d3 < |t|
    requires t[p + |OpenTag|..d1] == M && t[d1 + 1..d2] == N && t[d2 + 1..d3] == P
    requires t[d1] == '.' && t[d2] == '.' && CloseTagAt(t, d3)
    ensures NumericAt(t, p) == Some(NumericMatch(d1, d2, d3))
  {
    ThreeRuns(t, p + |OpenTag|, d1, d2, d3, M, N, P);
    NumericAtIs(t, p, d1, d2, d3);
  }

  /** The version of a match is read from the three runs it delimits. */
  lemma MatchVersionOfRuns(t: string, p: nat, m: NumericMatch, M: string, N: string, P: string)
    requires NumericAt(t, p) == Some(m)
    requires t[p + |OpenTag|..m.d1] == M && t[m.d1 + 1..m.d2] == N && t[m.d2 + 1..m.d3] == P
    ensures MatchVersion(t, p) == SemVer(ParseDecimal(M), ParseDecimal(N), ParseDecimal(P))
  {
    MatchVersionIsGroups(t, p, m);
    GroupsOfRuns(t, p, m, M, N, P);
  }

  lemma MatchVersionIsGroups(t: string, p: nat, m: NumericMatch)
    requires NumericAt(t, p) == Some(m)
    ensures MatchVersion(t, p) == GroupsOf(t, p, m)
  {
  }

  lemma GroupsOfRuns(t: string, p: nat, m: NumericMatch, M: string, N: string, P: string)
    requires p + |OpenTag| <= m.d1 < m.d2 < m.d3 <= |t|
    requires t[p + |OpenTag|..m.d1] == M && t[m.d1 + 1..m.d2] == N && t[m.d2 + 1..m.d3] == P
    ensures GroupsOf(t, p, m) == SemVer(ParseDecimal(M), ParseDecimal(N), ParseDecimal(P))
  {
  }

  /** Three digit runs, ended by `.`, `.` and `<`, end where the runs say. */
  lemma ThreeRuns(t: string, a: nat, d1: nat, d2: nat, d3: nat, M: string, N: string, P: string)
    requires AllDigits(M) && AllDigits(N) && AllDigits(P)
    requires d1 == a + |M| && d2 == d1 + 1 + |N| && d3 == d2 + 1 + |P| && d3 < |t|
    requires t[a..d1] == M && t[d1 + 1..d2] == N && t[d2 + 1..d3] == P
    requires t[d1] == '.' && t[d2] == '.' && t[d3] == '<'
    ensures DigitsEnd(t, a) == d1 && DigitsEnd(t, d1 + 1) == d2 && DigitsEnd(t, d2 + 1) == d3
  {
    DigitsEndOfRun(t, a, d1, M);
    DigitsEndOfRun(t, d1 + 1, d2, N);
    DigitsEndOfRun(t, d2 + 1, d3, P);
  }

  /** The numeric pattern at `p`, given where its three digit runs end. */
  lemma NumericAtIs(s: string, p: nat, d1: nat, d2: nat, d3: nat)
    requires OpenTagAt(s, p)
    requires p + |OpenTag| < d1 < |s| && DigitsEnd(s, p + |OpenTag|) == d1 && s[d1] == '.'
    requires d1 + 1 < d2 < |s| && DigitsEnd(s, d1 + 1) == d2 && s[d2] == '.'
    requires d2 + 1 < d3 < |s| && DigitsEnd(s, d2 + 1) == d3 && CloseTagAt(s, d3)
    ensures NumericAt(s, p) == Some(NumericMatch(d1, d2, d3))
  {
    RunsFromIs(s, p + |OpenTag|, d1, d2, d3);
  }

  lemma RunsFromIs(s: string, a: nat, d1: nat, d2: nat, d3: nat)
    requires a < d1 < |s| && DigitsEnd(s, a) == d1 && s[d1] == '.'
    requires d1 + 1 < d2 < |s| && DigitsEnd(s, d1 + 1) == d2 && s[d2] == '.'
    requires d2 + 1 < d3 < |s| && DigitsEnd(s, d2 + 1) == d3 && CloseTagAt(s, d3)
    ensures RunsFrom(s, a) == Some(NumericMatch(d1, d2, d3))
  {
  }

  /** Where the five pieces and two separators of a text spelled out from `p` sit. */
  lemma {:induction false} PiecesLayout(t: string, p: nat, A: string, M: string, dot: string, N: string, P: string,
                                        B: string, post: string)
    requires p <= |t| && t[p..] == A + (M + (dot + (N + (dot + (P + (B + post))))))
    ensures var d1 := p + |A| + |M|;
            var d2 := d1 + |dot| + |N|;
            var d3 := d2 + |dot| + |P|;
            && d3 + |B| == |t| - |post| && OccursAt(t, A, p) && OccursAt(t, B, d3)
            && t[p + |A|..d1] == M && t[d1 + |dot|..d2] == N && t[d2 + |dot|..d3] == P
            && OccursAt(t, dot, d1) && OccursAt(t, dot, d2)
  {
    var d1 := p + |A| + |M|;
    var d2 := d1 + |dot| + |N|;
    Peel3(t, p, A, M, dot, N + (dot + (P + (B + post))));
    Peel3(t, d1 + |dot|, N, dot, P, B + post);
    Peel(t, d2 + |dot| + |P|, B, post);
  }

  /** Reading three pieces off the text at `x`. */
  lemma Peel3(t: string, x: nat, u: string, v: string, w: string, rest: string)
    requires x <= |t| && t[x..] == u + (v + (w + rest))
    ensures x + |u| + |v| + |w| <= |t| && t[x + |u| + |v| + |w|..] == rest
    ensures OccursAt(t, u, x) && t[x + |u|..x + |u| + |v|] == v && OccursAt(t, v, x + |u|)
    ensures OccursAt(t, w, x + |u| + |v|)
  {
    Peel(t, x, u, v + (w + rest));
    Peel(t, x + |u|, v, w + rest);
    Peel(t, x + |u| + |v|, w, rest);
  }

  /** The numeric pattern at `p` of a text that continues with three digit runs between the tags. */
  lemma NumericAtPieces(t: string, p: nat, M: string, N: string, P: string, post: string)
    requires |M| >= 1 && AllDigits(M) && |N| >= 1 && AllDigits(N) && |P| >= 1 && AllDigits(P)
    requires p <= |t| && t[p..] == OpenTag + (M + ("." + (N + ("." + (P + (CloseTag + post))))))
    ensures NumericAt(t, p).Some? && MatchEnd(NumericAt(t, p).value) == |t| - |post|
    ensures MatchVersion(t, p) == SemVer(ParseDecimal(M), ParseDecimal(N), ParseDecimal(P))
  {
    var d1, d2, d3 := DottedLayout(t, p, M, N, P, post);
    NumericAtLaidOut(t, p, d1, d2, d3, M, N, P);
    MatchVersionOfRuns(t, p, NumericMatch(d1, d2, d3), M, N, P);
  }

  /** `PiecesLayout` for the numeric pattern, with the positions of the two dots and the closing tag named. */
  lemma DottedLayout(t: string, p: nat, M: string, N: string, P: string, post: string)
    returns (d1: nat, d2: nat, d3: nat)
    requires p <= |t| && t[p..] == OpenTag + (M + ("." + (N + ("." + (P + (CloseTag + post))))))
    ensures d1 == p + |OpenTag| + |M| && d2 == d1 + 1 + |N| && d3 == d2 + 1 + |P|
    ensures d3 + |CloseTag| == |t| - |post| && OccursAt(t, OpenTag, p) && OccursAt(t, CloseTag, d3)
    ensures t[p + |OpenTag|..d1] == M && t[d1 + 1..d2] == N && t[d2 + 1..d3] == P
    ensures OccursAt(t, ".", d1) && OccursAt(t, ".", d2)
  {
    PiecesLayout(t, p, OpenTag, M, ".", N, P, CloseTag, post);
    d1 := p + |OpenTag| + |M|;
    d2 := d1 + |"."| + |N|;
    d3 := d2 + |"."| + |P|;
  }

  /** The numeric pattern at `p`, given the occurrences of the tags, the dots and the runs. */
  lemma NumericAtLaidOut(t: string, p: nat, d1: nat, d2: nat, d3: nat, M: string, N: string, P: string)
    requires |M| >= 1 && AllDigits(M) && |N| >= 1 && AllDigits(N) && |P| >= 1 && AllDigits(P)
    requires d1 == p + |OpenTag| + |M| && d2 == d1 + 1 + |N| && d3 == d2 + 1 + |P|
    requires OccursAt(t, OpenTag, p) && OccursAt(t, CloseTag, d3)
    requires t[p + |OpenTag|..d1] == M && t[d1 + 1..d2] == N && t[d2 + 1..d3] == P
    requires OccursAt(t, ".", d1) && OccursAt(t, ".", d2)
    ensures NumericAt(t, p) == Some(NumericMatch(d1, d2, d3))
  {
    assert t[d1] == t[d1..d1 + 1][0] == '.';
    assert t[d2] == t[d2..d2 + 1][0] == '.';
    OpenTagAtIsOccurrence(t, p);
    CloseTagAtIsOccurrence(t, d3);
    NumericAtRuns(t, p, d1, d2, d3, M, N, P);
  }

  /** A freshly written `<Version>M.m.p</Version>` is read back as exactly that version. */
  lemma NumericAtWritten(pre: string, w: SemVer, post: string)
    ensures var t := pre + OpenTag + Format(w) + CloseTag + post;
            && NumericAt(t, |pre|).Some? && MatchEnd(NumericAt(t, |pre|).value) == |t| - |post|
            && MatchVersion(t, |pre|) == w
  {
    var M, N, P := Decimal(w.major), Decimal(w.minor), Decimal(w.patch);
    var t := pre + OpenTag + Format(w) + CloseTag + post;
    var tail := OpenTag + (M + ("." + (N + ("." + (P + (CloseTag + post))))));
    assert t == pre + tail;
    assert t[|pre|..] == tail;
    NumericAtPieces(t, |pre|, M, N, P, post);
  }

  /** The version read is the one at `i` when the numeric pattern matches at `i` and nowhere before. */
  lemma ParseVersionAt(t: string, i: nat)
    requires NumericAt(t, i).Some?
    requires forall q: nat :: q < i ==> NumericAt(t, q).None?
    ensures FirstNumeric(t, 0) == Some(i)
    ensures ParseVersion(t) == Some(MatchVersion(t, i))
  {
    var r := FirstNumeric(t, 0);
    assert r.Some?;
    assert r.value == i;
  }

  /** The rewritten text is the text before the leftmost element, the new element, and the text after it. */
  lemma RewriteShape(csproj: string, newVersion: string)
    requires FirstElement(csproj, 0).Some?
    ensures var i := FirstElement(csproj, 0).value;
            var post := csproj[ElementAt(csproj, i).value..];
            && i <= |csproj|
            && RewriteVersion(csproj, newVersion) == csproj[..i] + OpenTag + newVersion + CloseTag + post
  {
  }

  /** The rewritten text keeps everything before the leftmost element and starts a new element there. */
  lemma RewriteStartsElement(csproj: string, newVersion: string)
    requires FirstElement(csproj, 0).Some?
    ensures var i := FirstElement(csproj, 0).value;
            var t := RewriteVersion(csproj, newVersion);
            && i + 1 < |t| && t[..i] == csproj[..i] && t[i] == '<' && t[i + 1] == 'V'
  {
    var i := FirstElement(csproj, 0).value;
    var post := csproj[ElementAt(csproj, i).value..];
    var t := RewriteVersion(csproj, newVersion);
    RewriteShape(csproj, newVersion);
    SpliceParts(csproj[..i], OpenTag, newVersion, CloseTag, post);
    Peel(t, i, OpenTag, newVersion + (CloseTag + post));
    OpenTagAtIsOccurrence(t, i);
  }

  lemma SpliceParts(pre: string, a: string, b: string, c: string, post: string)
    ensures var t := pre + a + b + c + post;
            && |pre| <= |t| && t[..|pre|] == pre && t[|pre|..] == a + (b + (c + post))
  {
    var t := pre + a + b + c + post;
    assert t == pre + (a + (b + (c + post)));
  }

  /**
   * Writing any version over the leftmost `<Version>...</Version>` element makes it the
   * version read next time, whatever stood there before and whatever follows.
   */
  lemma RewriteThenParse(csproj: string, w: SemVer)
    requires FirstElement(csproj, 0).Some?
    ensures ParseVersion(RewriteVersion(csproj, Format(w))) == Some(w)
  {
    var i := FirstElement(csproj, 0).value;
    RewrittenElementIsNumeric(csproj, w);
    NothingNumericBeforeRewrite(csproj, Format(w));
    ParseVersionAt(RewriteVersion(csproj, Format(w)), i);
  }

  /** The element written over the leftmost one matches the numeric pattern and holds the new version. */
  lemma RewrittenElementIsNumeric(csproj: string, w: SemVer)
    requires FirstElement(csproj, 0).Some?
    ensures var i := FirstElement(csproj, 0).value;
            var t := RewriteVersion(csproj, Format(w));
            NumericAt(t, i).Some? && MatchVersion(t, i) == w
  {
    var i := FirstElement(csproj, 0).value;
    RewriteShape(csproj, Format(w));
    NumericAtWritten(csproj[..i], w, csproj[ElementAt(csproj, i).value..]);
  }

  /** Nothing in front of the rewritten element matches the numeric pattern. */
  lemma NothingNumericBeforeRewrite(csproj: string, newVersion: string)
    requires FirstElement(csproj, 0).Some?
    ensures var i := FirstElement(csproj, 0).value;
            forall q: nat :: q < i ==> NumericAt(RewriteVersion(csproj, newVersion), q).None?
  {
    var i := FirstElement(csproj, 0).value;
    var t := RewriteVersion(csproj, newVersion);
    RewriteStartsElement(csproj, newVersion);
    forall q: nat | q < i ensures NumericAt(t, q).None? {
      NumericBeforeRewriteWasElement(csproj, t, q, i);
    }
  }

  /** A numeric element in front of the rewritten one would already have been an element of the original. */
  lemma NumericBeforeRewriteWasElement(csproj: string, t: string, q: nat, i: nat)
    requires q < i <= |csproj| && i + 1 < |t| && t[..i] == csproj[..i]
    requires t[i] == '<' && t[i + 1] == 'V'
    ensures NumericAt(t, q).Some? ==> ElementAt(csproj, q).Some?
  {
    if NumericAt(t, q).Some? {
      NumericIsElement(t, q);
      ElementEndsBefore(t, q, i);
      var eq := ElementAt(t, q).value;
      assert csproj[..eq] == csproj[..i][..eq] == t[..i][..eq] == t[..eq];
      ElementLocal(csproj, t, q);
    }
  }

  /** Whenever a version can be read, there is an element to rewrite, and it is not after the one read. */
  lemma ParsedMeansRewritable(csproj: string)
    requires ParseVersion(csproj).Some?
    ensures FirstElement(csproj, 0).Some?
    ensures FirstElement(csproj, 0).value <= FirstNumeric(csproj, 0).value
  {
    var j := FirstNumeric(csproj, 0).value;
    NumericIsElement(csproj, j);
  }

  /**
   * When the leftmost `<Version>` element is not the numeric one that was read, the rewrite
   * replaces the other element and leaves the element that was read, and all text after it,
   * exactly as it was.
   */
  lemma RewriteMissesLaterNumericElement(csproj: string, newVersion: string)
    requires FirstElement(csproj, 0).Some? && FirstNumeric(csproj, 0).Some?
    requires FirstElement(csproj, 0).value < FirstNumeric(csproj, 0).value
    ensures EndsWith(RewriteVersion(csproj, newVersion), csproj[FirstNumeric(csproj, 0).value..])
  {
    var i := FirstElement(csproj, 0).value;
    RewriteShape(csproj, newVersion);
    SpliceKeepsLaterText(csproj, i, ElementAt(csproj, i).value, FirstNumeric(csproj, 0).value, newVersion);
  }

  /** Replacing the element at `i` keeps the text from any later opening tag. */
  lemma SpliceKeepsLaterText(csproj: string, i: nat, e: nat, j: nat, newVersion: string)
    requires ElementAt(csproj, i) == Some(e) && i < j && OpenTagAt(csproj, j)
    ensures EndsWith(csproj[..i] + OpenTag + newVersion + CloseTag + csproj[e..], csproj[j..])
  {
    ElementEndsBefore(csproj, i, j);
    DropOfDrop(csproj, e, j);
    SuffixOfTail(csproj[..i] + OpenTag + newVersion + CloseTag, csproj[e..], j - e);
  }

  lemma DropOfDrop(s: string, e: nat, j: nat)
    requires e <= j <= |s|
    ensures s[j..] == s[e..][j - e..]
  {
  }

  /** Whatever follows a point in the tail of a concatenation ends the concatenation. */
  lemma SuffixOfTail(head: string, tail: string, k: nat)
    requires k <= |tail|
    ensures EndsWith(head + tail, tail[k..])
  {
    assert (head + tail)[|head| + k..] == tail[k..];
  }

  /** `<Version>x</Version>` at the front of a text, with no `<` inside `x`, is an element. */
  lemma ElementOfText(s: string, x: string, post: string)
    requires |x| >= 1 && '<' !in x
    requires s == OpenTag + x + CloseTag + post
    ensures ElementAt(s, 0) == Some(|OpenTag| + |x| + |CloseTag|)
  {
    var a := |OpenTag|;
    var k := a + |x|;
    Peel(s, 0, OpenTag, x + CloseTag + post);
    Peel(s, a, x, CloseTag + post);
    Peel(s, k, CloseTag, post);
    forall i | a <= i < k ensures s[i] != '<' {
      assert s[i] == s[a..k][i - a];
    }
    OpenTagAtIsOccurrence(s, 0);
    CloseTagAtIsOccurrence(s, k);
    NextLessThanIs(s, a, k);
  }

  /** No numeric element starts strictly inside the element at the front. */
  lemma NumericInsideFrontElement(s: string, q: nat)
    requires ElementAt(s, 0).Some? && 0 < q
    ensures NumericAt(s, q).Some? ==> ElementAt(s, 0).value <= q
  {
    if NumericAt(s, q).Some? {
      ElementEndsBefore(s, 0, q);
    }
  }

  /**
   * The two patterns can pick different elements: when the first element holds a value that
   * is not a number, the version is read from the next one while the rewrite targets the first.
   */
  lemma PatternsCanDisagree(x: string, w: SemVer)
    requires |x| >= 1 && '<' !in x && !IsDigit(x[0])
    ensures var first := OpenTag + x + CloseTag;
            var s := first + OpenTag + Format(w) + CloseTag;
            && FirstElement(s, 0) == Some(0)
            && FirstNumeric(s, 0) == Some(|first|)
            && ParseVersion(s) == Some(w)
  {
    var first := OpenTag + x + CloseTag;
    var s := first + OpenTag + Format(w) + CloseTag;
    NonNumericFront(first, x, s, OpenTag + Format(w) + CloseTag);
    NumericAtWritten(first, w, "");
    AppendEmpty(s);
    ParseVersionAt(s, |first|);
  }

  /** A front element whose value does not start with a digit is an element but holds no numeric match. */
  lemma NonNumericFront(first: string, x: string, s: string, rest: string)
    requires |x| >= 1 && '<' !in x && !IsDigit(x[0])
    requires first == OpenTag + x + CloseTag && s == first + rest
    ensures ElementAt(s, 0) == Some(|first|) && FirstElement(s, 0) == Some(0)
    ensures forall q: nat :: q < |first| ==> NumericAt(s, q).None?
  {
    assert s == OpenTag + x + CloseTag + rest;
    ElementOfText(s, x, rest);
    assert s[|OpenTag|] == s[|OpenTag|..][0] == x[0];
    assert DigitsEnd(s, |OpenTag|) == |OpenTag|;
    forall q: nat | q < |first| ensures NumericAt(s, q).None? {
      if q > 0 {
        NumericInsideFrontElement(s, q);
      }
    }
  }

  lemma AppendEmpty(x: string)
    ensures x + "" == x
  {
  }

  lemma EmptyEnds(x: string, y: string, z: string)
    ensures "" + x + y + z + "" == x + y + z
  {
  }

  /** The text `calculateNewVersion` produces is read back as the bumped version. */
  lemma NewVersionReadsBack(current: SemVer, bumpType: string)
    requires CalculateNewVersion(current, bumpType).Ok?
    ensures ParseVersion(OpenTag + CalculateNewVersion(current, bumpType).value + CloseTag)
            == Some(Bump(current, KindOf(bumpType).value))
  {
    var w := Bump(current, KindOf(bumpType).value);
    FormattedElementReadsBack(w);
  }

  /** A project file holding just the element written for `w` reads as `w`. */
  lemma FormattedElementReadsBack(w: SemVer)
    ensures ParseVersion(OpenTag + Format(w) + CloseTag) == Some(w)
  {
    var t := OpenTag + Format(w) + CloseTag;
    NumericAtWritten("", w, "");
    EmptyEnds(OpenTag, Format(w), CloseTag);
    ParseVersionAt(t, 0);
  }

  /** Distinct versions are written differently: the text of a version determines it. */
  lemma FormatInjective(v: SemVer, w: SemVer)
    requires Format(v) == Format(w)
    ensures v == w
  {
    FormattedElementReadsBack(v);
    FormattedElementReadsBack(w);
  }

}
