/**
 * JavaScript strings as the server sees them: sequences of UTF-16 code units.
 * The regular expressions of the server carry no `u` flag, so every character
 * class and every `includes` works on code units, not on code points.
 */
module JsStrings {

  newtype CodeUnit = x: int | 0 <= x < 0x1_0000

  type JsString = seq<CodeUnit>

  /** The code unit of a Basic Multilingual Plane character literal. */
  function U(c: char): CodeUnit
    requires c as int < 0x1_0000
  {
    c as int as CodeUnit
  }

  /** A string literal made of Basic Multilingual Plane characters. */
  function Lit(s: string): (r: JsString)
    requires forall i | 0 <= i < |s| :: s[i] as int < 0x1_0000
    ensures |r| == |s|
    ensures forall i | 0 <= i < |s| :: r[i] == U(s[i])
  {
    seq(|s|, i requires 0 <= i < |s| => U(s[i]))
  }

  const Slash: CodeUnit := U('/')
  const Dollar: CodeUnit := U('$')
  const Star: CodeUnit := U('*')
  const Backtick: CodeUnit := U('`')

  /** The sentinel name of a job whose title gave nothing. */
  const Brainrot: JsString := Lit("Brainrot")
  /** The sentinel value of a job whose magnitude was not found. */
  const Zero: JsString := Lit("0")
  /** The sentinel occupancy of a job whose player count was not found. */
  const NotAvailable: JsString := Lit("N/A")

  /** WhiteSpace and LineTerminator code units, the set `String.prototype.trim` strips. */
  predicate IsJsWhitespace(c: CodeUnit) {
    || c == 0x09 || c == 0x0A || c == 0x0B || c == 0x0C || c == 0x0D
    || c == 0x20 || c == 0xA0 || c == 0x1680
    || (0x2000 <= c <= 0x200A)
    || c == 0x2028 || c == 0x2029 || c == 0x202F || c == 0x205F
    || c == 0x3000 || c == 0xFEFF
  }

  /** `r` is `s` with its leading and trailing whitespace cut off, and nothing else. */
  ghost predicate IsTrimOf(s: JsString, r: JsString) {
    && (exists a, b | 0 <= a <= b <= |s| ::
          && r == s[a..b]
          && (forall k | 0 <= k < a :: IsJsWhitespace(s[k]))
          && (forall k | b <= k < |s| :: IsJsWhitespace(s[k])))
    && (r == [] || (!IsJsWhitespace(r[0]) && !IsJsWhitespace(r[|r| - 1])))
  }

  /** The first index at or after `i` that does not hold whitespace. */
  function SkipWhitespace(s: JsString, i: nat): (j: nat)
    requires i <= |s|
    ensures i <= j <= |s|
    ensures forall k | i <= k < j :: IsJsWhitespace(s[k])
    ensures j == |s| || !IsJsWhitespace(s[j])
    decreases |s| - i
  {
    if i == |s| || !IsJsWhitespace(s[i]) then i else SkipWhitespace(s, i + 1)
  }

  /** The least index `k >= lo` such that `s[k..j]` is all whitespace. */
  function BackWhitespace(s: JsString, lo: nat, j: nat): (k: nat)
    requires lo <= j <= |s|
    ensures lo <= k <= j
    ensures forall m | k <= m < j :: IsJsWhitespace(s[m])
    ensures k == lo || !IsJsWhitespace(s[k - 1])
    decreases j - lo
  {
    if j == lo || !IsJsWhitespace(s[j - 1]) then j else BackWhitespace(s, lo, j - 1)
  }

  /** `String.prototype.trim`. */
  function Trim(s: JsString): (r: JsString)
    ensures forall c | c in r :: c in s
    ensures r == [] || (!IsJsWhitespace(r[0]) && !IsJsWhitespace(r[|r| - 1]))
  {
    var a := SkipWhitespace(s, 0);
    var b := BackWhitespace(s, a, |s|);
    s[a..b]
  }

  /** `Trim` cuts off whitespace at both ends and nothing else. */
  lemma TrimSpec(s: JsString)
    ensures IsTrimOf(s, Trim(s))
  {
    var a := SkipWhitespace(s, 0);
    var b := BackWhitespace(s, a, |s|);
    assert Trim(s) == s[a..b];
    assert forall k | 0 <= k < a :: IsJsWhitespace(s[k]);
    assert forall k | b <= k < |s| :: IsJsWhitespace(s[k]);
  }

  /** `hay.includes(needle)`: some position of `hay` starts with `needle`. */
  function Includes(hay: JsString, needle: JsString): (b: bool)
    ensures b <==> exists i | 0 <= i <= |hay| :: needle <= hay[i..]
  {
    IncludesFrom(hay, needle, 0)
  }

  function IncludesFrom(hay: JsString, needle: JsString, from: nat): (b: bool)
    requires from <= |hay|
    ensures b <==> exists i | from <= i <= |hay| :: needle <= hay[i..]
    decreases |hay| - from
  {
    if needle <= hay[from..] then true
    else if from == |hay| then false
    else IncludesFrom(hay, needle, from + 1)
  }

  /** `s` has two stars in a row at `k`. */
  predicate StarPairAt(s: JsString, k: nat) {
    k + 1 < |s| && s[k] == Star && s[k + 1] == Star
  }

  // `s.replace(/\*\*/g, '')`: deletes the pairs `**`, scanning left to right without overlap.
  function RemoveDoubleStars(s: JsString): (r: JsString)
    ensures forall k: nat :: !StarPairAt(r, k)
    ensures Without(r, Star) == Without(s, Star)
    ensures |s| > 0 && s[0] != Star ==> |r| > 0 && r[0] == s[0]
    decreases |s|
  {
    if |s| >= 2 && s[0] == Star && s[1] == Star then
      assert Without(s, Star) == Without(s[2..], Star) by {
        assert s == [s[0]] + ([s[1]] + s[2..]);
        WithoutAppend([s[0]], [s[1]] + s[2..], Star);
        WithoutAppend([s[1]], s[2..], Star);
      }
      RemoveDoubleStars(s[2..])
    else if |s| == 0 then []
    else
      var rest := RemoveDoubleStars(s[1..]);
      assert s == [s[0]] + s[1..];
      WithoutAppend([s[0]], s[1..], Star);
      WithoutAppend([s[0]], rest, Star);
      ConsNoStarPair(s[0], rest);
      [s[0]] + rest
  }

  /** Putting a code unit in front of a pair-free string makes no pair unless both are stars. */
  lemma ConsNoStarPair(c: CodeUnit, rest: JsString)
    requires forall k: nat :: !StarPairAt(rest, k)
    requires c != Star || |rest| == 0 || rest[0] != Star
    ensures forall k: nat :: !StarPairAt([c] + rest, k)
  {
    forall k: nat ensures !StarPairAt([c] + rest, k) {
      if k > 0 {
        assert !StarPairAt(rest, k - 1);
      }
    }
  }

  /** `n` stars in a row. */
  function Stars(n: nat): (r: JsString)
    ensures |r| == n && forall k | 0 <= k < n :: r[k] == Star
  {
    if n == 0 then [] else [Star] + Stars(n - 1)
  }

  /** A run of `n` stars loses its pairs: one star survives when `n` is odd. */
  lemma {:induction false} RemoveDoubleStarsRun(n: nat)
    ensures RemoveDoubleStars(Stars(n)) == Stars(n % 2)
    decreases n
  {
    if n >= 2 {
      assert Stars(n)[2..] == Stars(n - 2);
      RemoveDoubleStarsRun(n - 2);
    } else if n == 1 {
      assert Stars(1)[1..] == [];
    }
  }

  /** No star at the end of `a` meets a star at the start of `b`. */
  predicate NoStarsMeet(a: JsString, b: JsString) {
    |a| == 0 || |b| == 0 || a[|a| - 1] != Star || b[0] != Star
  }

  /**
   * The scan never pairs a star across a non-star code unit, so the removal
   * works piece by piece when no star of one piece meets a star of the other.
   */
  lemma {:induction false} RemoveDoubleStarsAppend(a: JsString, b: JsString)
    requires NoStarsMeet(a, b)
    ensures RemoveDoubleStars(a + b) == RemoveDoubleStars(a) + RemoveDoubleStars(b)
    decreases |a|
  {
    if |a| == 0 {
      assert a + b == b;
    } else if |a| >= 2 && a[0] == Star && a[1] == Star {
      DropKeepsNoStarsMeet(a, b, 2);
      RemoveDoubleStarsAppend(a[2..], b);
      AppendAfterPair(a, b);
    } else {
      DropKeepsNoStarsMeet(a, b, 1);
      RemoveDoubleStarsAppend(a[1..], b);
      AppendAfterSingle(a, b);
    }
  }

  lemma AppendAfterPair(a: JsString, b: JsString)
    requires |a| >= 2 && a[0] == Star && a[1] == Star
    requires RemoveDoubleStars(a[2..] + b) == RemoveDoubleStars(a[2..]) + RemoveDoubleStars(b)
    ensures RemoveDoubleStars(a + b) == RemoveDoubleStars(a) + RemoveDoubleStars(b)
  {
    DropAppend(a, b, 2);
    RemoveDoubleStarsPairStep(a + b);
    RemoveDoubleStarsPairStep(a);
  }

  lemma AppendAfterSingle(a: JsString, b: JsString)
    requires |a| > 0 && !(|a| >= 2 && a[0] == Star && a[1] == Star)
    requires NoStarsMeet(a, b)
    requires RemoveDoubleStars(a[1..] + b) == RemoveDoubleStars(a[1..]) + RemoveDoubleStars(b)
    ensures RemoveDoubleStars(a + b) == RemoveDoubleStars(a) + RemoveDoubleStars(b)
  {
    NoPairAcross(a, b);
    DropAppend(a, b, 1);
    RemoveDoubleStarsSingleStep(a + b);
    RemoveDoubleStarsSingleStep(a);
    AppendAssoc([a[0]], RemoveDoubleStars(a[1..]), RemoveDoubleStars(b));
  }

  /** Dropping a prefix of the first piece of an append. */
  lemma DropAppend(a: JsString, b: JsString, n: nat)
    requires n <= |a|
    ensures (a + b)[n..] == a[n..] + b
  {
  }

  /** Concatenation is associative. */
  lemma AppendAssoc<T>(a: seq<T>, b: seq<T>, c: seq<T>)
    ensures (a + b) + c == a + (b + c)
  {
  }

  lemma DropKeepsNoStarsMeet(a: JsString, b: JsString, n: nat)
    requires n <= |a| && NoStarsMeet(a, b)
    ensures NoStarsMeet(a[n..], b)
  {
    if n < |a| {
      assert a[n..][|a| - n - 1] == a[|a| - 1];
    }
  }

  lemma NoPairAcross(a: JsString, b: JsString)
    requires |a| > 0 && !(|a| >= 2 && a[0] == Star && a[1] == Star)
    requires NoStarsMeet(a, b)
    ensures (a + b)[0] == a[0]
    ensures !(|a + b| >= 2 && (a + b)[0] == Star && (a + b)[1] == Star)
  {
    var s := a + b;
    if |a| == 1 && |s| >= 2 { assert s[1] == b[0]; }
    if |a| >= 2 { assert s[1] == a[1]; }
  }

  /** The scan drops a leading pair. */
  lemma RemoveDoubleStarsPairStep(s: JsString)
    requires |s| >= 2 && s[0] == Star && s[1] == Star
    ensures RemoveDoubleStars(s) == RemoveDoubleStars(s[2..])
  {
  }

  /** The scan keeps a leading code unit that does not start a pair. */
  lemma RemoveDoubleStarsSingleStep(s: JsString)
    requires |s| > 0 && !(|s| >= 2 && s[0] == Star && s[1] == Star)
    ensures RemoveDoubleStars(s) == [s[0]] + RemoveDoubleStars(s[1..])
  {
  }

  /** `s.replace(/c/g, '')` for a single code unit `c`. */
  function Without(s: JsString, c: CodeUnit): (r: JsString)
    ensures c !in r
    ensures forall d :: d in r <==> d in s && d != c
    ensures |r| <= |s|
  {
    if |s| == 0 then []
    else if s[0] == c then Without(s[1..], c)
    else [s[0]] + Without(s[1..], c)
  }

  lemma {:induction false} WithoutAppend(a: JsString, b: JsString, c: CodeUnit)
    ensures Without(a + b, c) == Without(a, c) + Without(b, c)
    decreases |a|
  {
    if |a| == 0 {
      assert a + b == b;
    } else {
      assert (a + b)[1..] == a[1..] + b;
      WithoutAppend(a[1..], b, c);
    }
  }

  /** Joins pieces with a separator; the inverse of `Split`. */
  function Join(pieces: seq<JsString>, sep: CodeUnit): JsString
  {
    if |pieces| == 0 then []
    else if |pieces| == 1 then pieces[0]
    else pieces[0] + [sep] + Join(pieces[1..], sep)
  }

  /** `s.split(sep)` for a one-code-unit separator. */
  function Split(s: JsString, sep: CodeUnit): (r: seq<JsString>)
    ensures |r| >= 1
    ensures Join(r, sep) == s
    ensures forall k | 0 <= k < |r| :: sep !in r[k]
    decreases |s|
  {
    if |s| == 0 then [[]]
    else if s[0] == sep then
      var rest := Split(s[1..], sep);
      assert s == [sep] + s[1..];
      [[]] + rest
    else
      var rest := Split(s[1..], sep);
      assert s == [s[0]] + s[1..];
      JoinGrowFirst(rest, s[0], sep);
      [[s[0]] + rest[0]] + rest[1..]
  }

  /** Putting a code unit in front of the first piece puts it in front of the join. */
  lemma JoinGrowFirst(p: seq<JsString>, c: CodeUnit, sep: CodeUnit)
    requires |p| >= 1 && c != sep
    requires forall k | 0 <= k < |p| :: sep !in p[k]
    ensures var q := [[c] + p[0]] + p[1..];
            && Join(q, sep) == [c] + Join(p, sep)
            && |q| == |p|
            && forall k | 0 <= k < |q| :: sep !in q[k]
  {
    var q := [[c] + p[0]] + p[1..];
    assert q[1..] == p[1..];
    if |p| > 1 {
      assert Join(q, sep) == ([c] + p[0]) + [sep] + Join(p[1..], sep);
    }
  }

  /** Splitting a join of separator-free pieces gives the pieces back. */
  lemma {:induction false} SplitJoin(pieces: seq<JsString>, sep: CodeUnit)
    requires |pieces| >= 1
    requires forall k | 0 <= k < |pieces| :: sep !in pieces[k]
    ensures Split(Join(pieces, sep), sep) == pieces
    decreases |pieces|
  {
    var r := Split(Join(pieces, sep), sep);
    SplitUnique(Join(pieces, sep), sep, pieces, r);
  }

  /** How a join of separator-free pieces begins: the first piece, then a separator. */
  lemma JoinFirstPiece(p: seq<JsString>, sep: CodeUnit)
    requires |p| >= 1
    requires forall k | 0 <= k < |p| :: sep !in p[k]
    ensures |p| == 1 <==> sep !in Join(p, sep)
    ensures |p| > 1 ==> && |p[0]| < |Join(p, sep)|
                        && Join(p, sep)[|p[0]|] == sep
                        && Join(p, sep)[..|p[0]|] == p[0]
                        && Join(p, sep)[|p[0]| + 1..] == Join(p[1..], sep)
  {
    if |p| > 1 {
      var s := Join(p, sep);
      assert s == p[0] + [sep] + Join(p[1..], sep);
      assert s[|p[0]|] == sep;
      assert sep in s;
    }
  }

  /** Two separator-free decompositions of one string are the same. */
  lemma {:induction false} SplitUnique(s: JsString, sep: CodeUnit, p: seq<JsString>, q: seq<JsString>)
    requires |p| >= 1 && |q| >= 1
    requires Join(p, sep) == s && Join(q, sep) == s
    requires forall k | 0 <= k < |p| :: sep !in p[k]
    requires forall k | 0 <= k < |q| :: sep !in q[k]
    ensures p == q
    decreases |p| + |q|
  {
    JoinFirstPiece(p, sep);
    JoinFirstPiece(q, sep);
    assert (|p| == 1) == (|q| == 1);
    if |p| > 1 {
      var n := |p[0]|;
      var m := |q[0]|;
      assert n >= m by {
        assert sep !in s[..m];
      }
      assert m >= n by {
        assert sep !in s[..n];
      }
      assert p[0] == q[0];
      SplitUnique(s[n + 1..], sep, p[1..], q[1..]);
      assert p == [p[0]] + p[1..];
      assert q == [q[0]] + q[1..];
    }
  }
}
