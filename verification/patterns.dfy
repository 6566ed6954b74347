/**
 * The regular expressions of the payload extractor, written as explicit
 * leftmost-match searches over code units. Each matcher is paired with a
 * declarative description of the text it accepts, and the search is proved
 * to return the leftmost such text, as a backtracking JavaScript regex does.
 */
module Patterns {
  import opened Wrappers
  import opened JsStrings

  // ----- character classes -----

  /** `\d` and `[0-9]`. */
  predicate IsDigit(c: CodeUnit) { U('0') <= c <= U('9') }

  /** `[0-9.]`. */
  predicate IsRateNumChar(c: CodeUnit) { IsDigit(c) || c == U('.') }

  /** `[KMBT]` under the `i` flag. */
  predicate IsRateSuffix(c: CodeUnit) {
    c == U('K') || c == U('M') || c == U('B') || c == U('T')
    || c == U('k') || c == U('m') || c == U('b') || c == U('t')
  }

  /** `s` under the `i` flag. */
  predicate IsLetterS(c: CodeUnit) { c == U('s') || c == U('S') }

  /** `[a-f0-9\-]`: lower-case hexadecimal digits and the hyphen. */
  predicate IsUuidChar(c: CodeUnit) { IsDigit(c) || (U('a') <= c <= U('f')) || c == U('-') }

  predicate IsBacktick(c: CodeUnit) { c == Backtick }

  predicate AllOf(s: JsString, p: CodeUnit -> bool) {
    forall k | 0 <= k < |s| :: p(s[k])
  }

  lemma AllOfSlice(s: JsString, i: nat, j: nat, p: CodeUnit -> bool)
    requires i <= j <= |s|
    ensures AllOf(s[i..j], p) <==> forall k | i <= k < j :: p(s[k])
  {
    if AllOf(s[i..j], p) {
      forall k | i <= k < j ensures p(s[k]) {
        assert s[k] == s[i..j][k - i];
      }
    }
  }

  // ----- the languages the patterns accept -----

  /** Text of `[0-9.]+[KMBT]?\/s` (case-insensitive). */
  predicate IsRateText(x: JsString) {
    && |x| >= 3
    && x[|x| - 2] == Slash
    && IsLetterS(x[|x| - 1])
    && var n := if IsRateSuffix(x[|x| - 3]) then |x| - 3 else |x| - 2;
       n > 0 && AllOf(x[..n], IsRateNumChar)
  }

  /** Text of `\$[0-9.]+[KMBT]?\/s`. */
  predicate IsDollarRateText(x: JsString) {
    |x| >= 1 && x[0] == Dollar && IsRateText(x[1..])
  }

  /** Text of `[a-f0-9\-]{36}`. */
  predicate IsUuidText(x: JsString) {
    |x| == 36 && AllOf(x, IsUuidChar)
  }

  /** Text of `\d+\/\d+`. */
  ghost predicate IsPlayersText(x: JsString) {
    exists k | 0 < k < |x| - 1 :: x[k] == Slash && AllOf(x[..k], IsDigit) && AllOf(x[k + 1..], IsDigit)
  }

  // ----- generic scanning -----

  /** The end of the longest run of `p`-code-units starting at `i`, as a greedy `+`/`*` consumes it. */
  function RunEnd(s: JsString, i: nat, p: CodeUnit -> bool): (j: nat)
    requires i <= |s|
    ensures i <= j <= |s|
    ensures forall k | i <= k < j :: p(s[k])
    ensures j == |s| || !p(s[j])
    decreases |s| - i
  {
    if i == |s| || !p(s[i]) then i else RunEnd(s, i + 1, p)
  }

  /** A run that is all `p` and stops at a non-`p` code unit is the one `RunEnd` finds. */
  lemma RunEndIs(s: JsString, i: nat, j: nat, p: CodeUnit -> bool)
    requires i <= j <= |s|
    requires forall k | i <= k < j :: p(s[k])
    requires j == |s| || !p(s[j])
    ensures RunEnd(s, i, p) == j
  {
  }

  /** Tries `at` at every position from `from` to `|s|` and returns the first that matches. */
  function Search<M>(s: JsString, from: nat, at: (JsString, nat) -> Option<M>): (r: Option<(nat, M)>)
    requires from <= |s| + 1
    ensures r.Some? ==> from <= r.value.0 <= |s| && at(s, r.value.0) == Some(r.value.1)
    ensures r.Some? ==> forall q | from <= q < r.value.0 :: at(s, q).None?
    ensures r.None? ==> forall q | from <= q <= |s| :: at(s, q).None?
    decreases |s| + 1 - from
  {
    if from > |s| then None
    else match at(s, from)
      case Some(m) => Some((from, m))
      case None => Search(s, from + 1, at)
  }

  /** The search result is determined by the first position that matches. */
  lemma SearchFirst<M>(s: JsString, at: (JsString, nat) -> Option<M>, p: nat)
    requires p <= |s|
    requires at(s, p).Some?
    requires forall q | 0 <= q < p :: at(s, q).None?
    ensures Search(s, 0, at) == Some((p, at(s, p).value))
  {
  }

  // ----- [0-9.]+[KMBT]?\/s -----

  /** Where `[0-9.]+[KMBT]?\/s` (flag `i`) ends when tried at position `p`. */
  function RateEnd(s: JsString, p: nat): (r: Option<nat>)
    ensures r.Some? ==> p < r.value <= |s|
  {
    if p >= |s| then None
    else
      var q := RunEnd(s, p, IsRateNumChar);
      if q == p then None
      else if q + 2 < |s| && IsRateSuffix(s[q]) && s[q + 1] == Slash && IsLetterS(s[q + 2]) then Some(q + 3)
      else if q + 1 < |s| && s[q] == Slash && IsLetterS(s[q + 1]) then Some(q + 2)
      else None
  }

  /** At any position the matcher ends exactly where a rate text ends. */
  lemma RateEndExact(s: JsString, p: nat, e: nat)
    requires p <= e <= |s|
    ensures RateEnd(s, p) == Some(e) <==> IsRateText(s[p..e])
  {
    if RateEnd(s, p) == Some(e) {
      RateEndSound(s, p, e);
    }
    if IsRateText(s[p..e]) {
      RateEndComplete(s, p, e);
    }
  }

  lemma RateEndSound(s: JsString, p: nat, e: nat)
    requires p <= e <= |s|
    requires RateEnd(s, p) == Some(e)
    ensures IsRateText(s[p..e])
  {
    var x := s[p..e];
    var q := RunEnd(s, p, IsRateNumChar);
    assert IsRateNumChar(s[q - 1]);
    assert x[..q - p] == s[p..q];
    AllOfSlice(s, p, q, IsRateNumChar);
    if e == q + 3 {
      assert x[|x| - 3] == s[q];
    } else {
      assert x[|x| - 3] == s[q - 1];
    }
  }

  lemma RateEndComplete(s: JsString, p: nat, e: nat)
    requires p <= e <= |s|
    requires IsRateText(s[p..e])
    ensures RateEnd(s, p) == Some(e)
  {
    var x := s[p..e];
    var n := if IsRateSuffix(x[|x| - 3]) then |x| - 3 else |x| - 2;
    assert x[..n] == s[p..p + n];
    AllOfSlice(s, p, p + n, IsRateNumChar);
    assert s[p + n] == x[n];
    RunEndIs(s, p, p + n, IsRateNumChar);
  }

  /** Leftmost match of `[0-9.]+[KMBT]?\/s` (flag `i`), as a pair (start, end). */
  function FindRate(s: JsString): (r: Option<(nat, nat)>)
    ensures r.Some? ==> r.value.0 <= r.value.1 <= |s| && IsRateText(s[r.value.0..r.value.1])
    ensures r.Some? ==> forall e | r.value.0 <= e <= |s| && IsRateText(s[r.value.0..e]) :: e == r.value.1
    ensures r.Some? ==> forall p, e | 0 <= p < r.value.0 && p <= e <= |s| :: !IsRateText(s[p..e])
    ensures r.None? ==> forall p, e | 0 <= p <= e <= |s| :: !IsRateText(s[p..e])
  {
    var r := Search<nat>(s, 0, RateEnd);
    RateSearchFacts(s);
    match r
    case Some((p, e)) => Some((p, e))
    case None => None
  }

  lemma RateSearchFacts(s: JsString)
    ensures var r := Search<nat>(s, 0, RateEnd);
            && (r.Some? ==> r.value.0 <= r.value.1 <= |s| && IsRateText(s[r.value.0..r.value.1]))
            && (r.Some? ==> forall e | r.value.0 <= e <= |s| && IsRateText(s[r.value.0..e]) :: e == r.value.1)
            && (forall p, e | 0 <= p <= e <= |s| && (r.None? || p < r.value.0) :: !IsRateText(s[p..e]))
  {
    var r := Search<nat>(s, 0, RateEnd);
    if r.Some? {
      RateEndExact(s, r.value.0, r.value.1);
      forall e | r.value.0 <= e <= |s| && IsRateText(s[r.value.0..e]) ensures e == r.value.1 {
        RateEndExact(s, r.value.0, e);
      }
    }
    forall p, e | 0 <= p <= e <= |s| && (r.None? || p < r.value.0) ensures !IsRateText(s[p..e]) {
      RateEndExact(s, p, e);
    }
  }

  // ----- \$([0-9.]+[KMBT]?\/s) -----

  /** Where `\$[0-9.]+[KMBT]?\/s` (flag `i`) ends when tried at position `p`. */
  function DollarRateEnd(s: JsString, p: nat): Option<nat>
  {
    if p < |s| && s[p] == Dollar then RateEnd(s, p + 1) else None
  }

  lemma DollarRateEndExact(s: JsString, p: nat, e: nat)
    requires p <= e <= |s|
    ensures DollarRateEnd(s, p) == Some(e) <==> IsDollarRateText(s[p..e])
  {
    if p < e && s[p] == Dollar {
      assert s[p..e][1..] == s[p + 1..e];
      RateEndExact(s, p + 1, e);
    }
  }

  /** Leftmost match of `\$[0-9.]+[KMBT]?\/s` (flag `i`), as a pair (start, end); the `$` is at start. */
  function FindDollarRate(s: JsString): (r: Option<(nat, nat)>)
    ensures r.Some? ==> r.value.0 < r.value.1 <= |s| && IsDollarRateText(s[r.value.0..r.value.1])
    ensures r.Some? ==> forall e | r.value.0 <= e <= |s| && IsDollarRateText(s[r.value.0..e]) :: e == r.value.1
    ensures r.Some? ==> forall p, e | 0 <= p < r.value.0 && p <= e <= |s| :: !IsDollarRateText(s[p..e])
    ensures r.None? ==> forall p, e | 0 <= p <= e <= |s| :: !IsDollarRateText(s[p..e])
  {
    var r := Search<nat>(s, 0, DollarRateEnd);
    DollarRateSearchFacts(s);
    match r
    case Some((p, e)) => Some((p, e))
    case None => None
  }

  lemma DollarRateSearchFacts(s: JsString)
    ensures var r := Search<nat>(s, 0, DollarRateEnd);
            && (r.Some? ==> r.value.0 < r.value.1 <= |s| && IsDollarRateText(s[r.value.0..r.value.1]))
            && (r.Some? ==> forall e | r.value.0 <= e <= |s| && IsDollarRateText(s[r.value.0..e]) :: e == r.value.1)
            && (forall p, e | 0 <= p <= e <= |s| && (r.None? || p < r.value.0) :: !IsDollarRateText(s[p..e]))
  {
    var r := Search<nat>(s, 0, DollarRateEnd);
    if r.Some? {
      DollarRateEndExact(s, r.value.0, r.value.1);
      forall e | r.value.0 <= e <= |s| && IsDollarRateText(s[r.value.0..e]) ensures e == r.value.1 {
        DollarRateEndExact(s, r.value.0, e);
      }
    }
    forall p, e | 0 <= p <= e <= |s| && (r.None? || p < r.value.0) ensures !IsDollarRateText(s[p..e]) {
      DollarRateEndExact(s, p, e);
    }
  }

  // ----- \$?([0-9.]+[KMBT]?\/s) -----

  /**
   * `\$?([0-9.]+[KMBT]?\/s)` (flag `i`) tried at `p`: the greedy `\$?` first takes
   * a `$` if there is one and falls back to taking none. Gives (capture start, end).
   */
  function OptDollarRateAt(s: JsString, p: nat): Option<(nat, nat)>
  {
    if p < |s| && s[p] == Dollar && RateEnd(s, p + 1).Some? then Some((p + 1, RateEnd(s, p + 1).value))
    else match RateEnd(s, p)
      case Some(e) => Some((p, e))
      case None => None
  }

  /** The capture group of the leftmost match of `\$?([0-9.]+[KMBT]?\/s)` (flag `i`). */
  function OptDollarRateCapture(s: JsString): Option<JsString>
  {
    match Search<(nat, nat)>(s, 0, OptDollarRateAt)
    case Some((_, (c, e))) => if c <= e <= |s| then Some(s[c..e]) else None
    case None => None
  }

  /** The optional leading `$` never changes what is captured: it is the leftmost rate text. */
  lemma OptDollarCaptureIsRate(s: JsString)
    ensures FindRate(s).None? ==> OptDollarRateCapture(s).None?
    ensures FindRate(s).Some? ==> OptDollarRateCapture(s) == Some(s[FindRate(s).value.0..FindRate(s).value.1])
  {
    var f := Search<nat>(s, 0, RateEnd);
    assert FindRate(s) == (match f case Some((p, e)) => Some((p, e)) case None => None);
    OptSearchIsRateSearch(s);
  }

  /** The search for the optional-`$` pattern finds the span the plain rate search finds. */
  lemma OptSearchIsRateSearch(s: JsString)
    ensures var r := Search<(nat, nat)>(s, 0, OptDollarRateAt);
            && (r.None? ==> Search<nat>(s, 0, RateEnd).None?)
            && (r.Some? ==> Search<nat>(s, 0, RateEnd) == Some(r.value.1))
  {
    var r := Search<(nat, nat)>(s, 0, OptDollarRateAt);
    match r {
      case None =>
        forall q | 0 <= q <= |s| ensures RateEnd(s, q).None? {
          assert OptDollarRateAt(s, q).None?;
        }
      case Some((p0, (c, e))) =>
        if c == p0 + 1 {
          OptSearchAfterDollar(s, p0);
        } else {
          OptSearchAtStart(s, p0);
        }
    }
  }

  lemma OptSearchAfterDollar(s: JsString, p0: nat)
    requires p0 <= |s|
    requires OptDollarRateAt(s, p0).Some? && OptDollarRateAt(s, p0).value.0 == p0 + 1
    requires forall q | 0 <= q < p0 :: OptDollarRateAt(s, q).None?
    ensures Search<nat>(s, 0, RateEnd) == Some(OptDollarRateAt(s, p0).value)
  {
    assert s[p0] == Dollar;
    assert RateEnd(s, p0).None?;
    forall q | 0 <= q < p0 + 1 ensures RateEnd(s, q).None? {
      if q < p0 { assert OptDollarRateAt(s, q).None?; }
    }
    SearchFirst(s, RateEnd, p0 + 1);
  }

  lemma OptSearchAtStart(s: JsString, p0: nat)
    requires p0 <= |s|
    requires OptDollarRateAt(s, p0).Some? && OptDollarRateAt(s, p0).value.0 != p0 + 1
    requires forall q | 0 <= q < p0 :: OptDollarRateAt(s, q).None?
    ensures Search<nat>(s, 0, RateEnd) == Some(OptDollarRateAt(s, p0).value)
  {
    forall q | 0 <= q < p0 ensures RateEnd(s, q).None? {
      assert OptDollarRateAt(s, q).None?;
    }
    SearchFirst(s, RateEnd, p0);
  }

  // ----- [`]*([a-f0-9\-]{36})[`]* -----

  /** `[a-f0-9\-]{36}` matches the 36 code units of `s` starting at `i`. */
  predicate UuidWindow(s: JsString, i: nat) {
    i + 36 <= |s| && IsUuidText(s[i..i + 36])
  }

  /** Whether `[a-f0-9\-]{36}` matches at `p`, by scanning. */
  predicate UuidAt(s: JsString, p: nat) {
    p + 36 <= |s| && RunEnd(s, p, IsUuidChar) >= p + 36
  }

  lemma UuidAtExact(s: JsString, p: nat)
    ensures UuidAt(s, p) <==> UuidWindow(s, p)
  {
    if p + 36 <= |s| {
      AllOfSlice(s, p, p + 36, IsUuidChar);
    }
  }

  /**
   * `[`]*([a-f0-9\-]{36})[`]*` tried at `p`: the greedy backtick run is taken whole
   * (a shorter run would leave a backtick, which the class refuses); the trailing
   * backticks always match. Gives the start of the captured 36 code units.
   */
  function BacktickUuidAt(s: JsString, p: nat): Option<nat>
  {
    if p > |s| then None
    else
      var k := RunEnd(s, p, IsBacktick);
      if UuidAt(s, k) then Some(k) else None
  }

  /** A window that starts with no backtick is matched right where it starts. */
  lemma WindowMatchesAt(s: JsString, j: nat)
    ensures UuidWindow(s, j) ==> BacktickUuidAt(s, j) == Some(j)
    ensures UuidWindow(s, j) ==> !IsBacktick(s[j])
  {
    if UuidWindow(s, j) {
      assert s[j] == s[j..j + 36][0];
      RunEndIs(s, j, j, IsBacktick);
      UuidAtExact(s, j);
    }
  }

  lemma BacktickSearchFacts(s: JsString)
    ensures var r := Search<nat>(s, 0, BacktickUuidAt);
            && (r.Some? ==> UuidWindow(s, r.value.1))
            && (r.Some? ==> forall j: nat | j < r.value.1 :: !UuidWindow(s, j))
            && (r.None? ==> forall j: nat :: !UuidWindow(s, j))
  {
    match Search<nat>(s, 0, BacktickUuidAt)
    case Some((p0, k)) =>
      UuidAtExact(s, k);
      forall j: nat | j < k ensures !UuidWindow(s, j) {
        WindowMatchesAt(s, j);
        if j >= p0 {
          assert IsBacktick(s[j]);
        }
      }
    case None =>
      forall j: nat ensures !UuidWindow(s, j) {
        WindowMatchesAt(s, j);
      }
  }

  /**
   * The capture group of the leftmost match of `[`]*([a-f0-9\-]{36})[`]*`: the
   * leftmost 36-code-unit window over `[a-f0-9-]`; the backticks change nothing.
   */
  function FindJobId(s: JsString): (r: Option<JsString>)
    ensures r.Some? ==> IsUuidText(r.value)
    ensures r.Some? ==> exists i: nat | UuidWindow(s, i) ::
                          && r.value == s[i..i + 36]
                          && forall j: nat | j < i :: !UuidWindow(s, j)
    ensures r.None? ==> forall i: nat :: !UuidWindow(s, i)
  {
    BacktickSearchFacts(s);
    match Search<nat>(s, 0, BacktickUuidAt)
    case Some((_, k)) => Some(s[k..k + 36])
    case None => None
  }

  // ----- (\d+)\/(\d+) -----

  /** `(\d+)\/(\d+)` tried at `p`: gives the end of the first group and the end of the match. */
  function PlayersAt(s: JsString, p: nat): Option<(nat, nat)>
  {
    if p > |s| then None
    else
      var q := RunEnd(s, p, IsDigit);
      if q == p || q == |s| || s[q] != Slash then None
      else
        var e := RunEnd(s, q + 1, IsDigit);
        if e == q + 1 then None else Some((q, e))
  }

  lemma PlayersAtSound(s: JsString, p: nat)
    requires PlayersAt(s, p).Some?
    ensures var (q, e) := PlayersAt(s, p).value;
            && p < q < e <= |s|
            && s[q] == Slash
            && AllOf(s[p..q], IsDigit) && AllOf(s[q + 1..e], IsDigit)
            && IsPlayersText(s[p..e])
            && (e == |s| || !IsDigit(s[e]))
  {
    var (q, e) := PlayersAt(s, p).value;
    var x := s[p..e];
    assert x[q - p] == Slash;
    assert x[..q - p] == s[p..q];
    assert x[q - p + 1..] == s[q + 1..e];
  }

  lemma PlayersAtComplete(s: JsString, p: nat, e: nat)
    requires p <= e <= |s|
    ensures IsPlayersText(s[p..e]) ==> PlayersAt(s, p).Some?
  {
    if IsPlayersText(s[p..e]) {
      PlayersTextMatches(s, p, e);
    }
  }

  lemma PlayersTextMatches(s: JsString, p: nat, e: nat)
    requires p <= e <= |s|
    requires IsPlayersText(s[p..e])
    ensures PlayersAt(s, p).Some?
  {
    var x := s[p..e];
    var k :| 0 < k < |x| - 1 && x[k] == Slash && AllOf(x[..k], IsDigit) && AllOf(x[k + 1..], IsDigit);
    forall m | p <= m < p + k ensures IsDigit(s[m]) {
      assert s[m] == x[..k][m - p];
    }
    assert s[p + k] == x[k];
    RunEndIs(s, p, p + k, IsDigit);
    assert IsDigit(s[p + k + 1]) by { assert s[p + k + 1] == x[k + 1..][0]; }
  }

  /** What the search for `(\d+)\/(\d+)` finds: a leftmost match, or nothing anywhere. */
  lemma PlayersSearchFacts(s: JsString)
    ensures var r := Search<(nat, nat)>(s, 0, PlayersAt);
            && (r.Some? ==> r.value.1 == PlayersAt(s, r.value.0).value && PlayersFirstAt(s, r.value.0))
            && (r.None? ==> forall p, e | 0 <= p <= e <= |s| :: !IsPlayersText(s[p..e]))
  {
    match Search<(nat, nat)>(s, 0, PlayersAt)
    case Some((p, _)) =>
      PlayersFirst(s, p);
    case None =>
      forall p, e | 0 <= p <= e <= |s| ensures !IsPlayersText(s[p..e]) {
        PlayersAtComplete(s, p, e);
      }
  }

  /** A match at `p`, with no players text starting before `p`. */
  ghost predicate PlayersFirstAt(s: JsString, p: nat) {
    && PlayersAt(s, p).Some?
    && var (q, e) := PlayersAt(s, p).value;
    && p < q < e <= |s|
    && AllOf(s[p..q], IsDigit) && AllOf(s[q + 1..e], IsDigit)
    && s[p..e] == s[p..q] + [Slash] + s[q + 1..e]
    && (e == |s| || !IsDigit(s[e]))
    && forall p', e' | 0 <= p' < p && p' <= e' <= |s| :: !IsPlayersText(s[p'..e'])
  }

  lemma PlayersFirst(s: JsString, p: nat)
    requires p <= |s| && PlayersAt(s, p).Some?
    requires forall q | 0 <= q < p :: PlayersAt(s, q).None?
    ensures PlayersFirstAt(s, p)
  {
    PlayersAtSound(s, p);
    forall p', e' | 0 <= p' < p && p' <= e' <= |s| ensures !IsPlayersText(s[p'..e']) {
      PlayersAtComplete(s, p', e');
    }
    var (q, e) := PlayersAt(s, p).value;
    assert s[p..e] == s[p..q] + [Slash] + s[q + 1..e];
  }

  /** The two groups of the leftmost match of `(\d+)\/(\d+)`. */
  function FindPlayers(s: JsString): (r: Option<(JsString, JsString)>)
    ensures r.Some? ==> AllOf(r.value.0, IsDigit) && AllOf(r.value.1, IsDigit)
    ensures r.Some? ==> |r.value.0| > 0 && |r.value.1| > 0
    ensures r.Some? ==> exists p, e | 0 <= p <= e <= |s| ::
                          && s[p..e] == r.value.0 + [Slash] + r.value.1
                          && (e == |s| || !IsDigit(s[e]))
                          && forall p', e' | 0 <= p' < p && p' <= e' <= |s| :: !IsPlayersText(s[p'..e'])
    ensures r.None? ==> forall p, e | 0 <= p <= e <= |s| :: !IsPlayersText(s[p..e])
  {
    PlayersSearchFacts(s);
    match Search<(nat, nat)>(s, 0, PlayersAt)
    case Some((p, (q, e))) => Some((s[p..q], s[q + 1..e]))
    case None => None
  }
}
