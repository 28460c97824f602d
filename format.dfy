/**
 * The page's number formatter `fmt`. It rounds a number to four decimals
 * with Math.round(n * 10000) / 10000, renders the result with toFixed(4),
 * and then applies two regular-expression replacements: `\.0+$` -> "" drops
 * a fraction made only of zeros, and `(\.[0-9]*?)0+$` -> "$1" drops the
 * trailing zeros of any other fraction.
 *
 * The rounded value is carried as the integer k = Math.round(n * 10000), so
 * the value displayed is k / 10000 exactly.
 */
module Format {
  import opened Decimal

  datatype Option<T> = None | Some(value: T)

  /**
   * Math.round (section 21.3.2.28 of ECMA-262): the integer nearest to x,
   * a half rounded toward +infinity.
   */
  function RoundHalfUp(x: real): (k: int)
    ensures k as real - 0.5 <= x < k as real + 0.5
  {
    (x + 0.5).Floor
  }

  function Abs(k: int): nat {
    if k < 0 then -k else k
  }

  /** The sign toFixed writes: "-" for a negative value only, never for zero. */
  function Sign(k: int): string {
    if k < 0 then "-" else ""
  }

  /**
   * The digits of n left-padded with zeros to f + 1 characters, with f = 4
   * fraction digits (step 10 of Number.prototype.toFixed, section 21.1.3.3 of
   * ECMA-262); longer digit strings are left as they are, so a string longer
   * than five characters never starts with a zero.
   */
  function PaddedDigits(n: nat): (m: string)
    ensures |m| >= 5 && AllDigits(m) && DigitsValue(m) == n
    ensures |m| > 5 ==> m[0] != '0'
  {
    var d := DecimalDigits(n);
    DigitsValueOfDecimalDigits(n);
    if |d| <= 4 then
      LeadingZerosValue(5 - |d|, d);
      Zeros(5 - |d|) + d
    else
      d
  }

  /** Zeros in front of a digit string do not change its value. */
  lemma LeadingZerosValue(z: nat, d: string)
    requires AllDigits(d)
    ensures AllDigits(Zeros(z) + d) && DigitsValue(Zeros(z) + d) == DigitsValue(d)
  {
    DigitsValueAppend(Zeros(z), d);
    DigitsValueZero(Zeros(z));
  }

  /** What toFixed(4) writes before the point for the value k / 10000. */
  function IntDigits(k: int): string {
    var m := PaddedDigits(Abs(k));
    m[..|m| - 4]
  }

  /** What toFixed(4) writes after the point for the value k / 10000. */
  function FracDigits(k: int): string {
    var m := PaddedDigits(Abs(k));
    m[|m| - 4..]
  }

  /** Number.prototype.toFixed(4) applied to the value k / 10000. */
  function ToFixed4(k: int): string {
    Sign(k) + IntDigits(k) + "." + FracDigits(k)
  }

  /** The two digit groups of toFixed(4) hold the quotient and remainder of |k| by 10000. */
  lemma ToFixed4Parts(k: int)
    ensures |IntDigits(k)| >= 1 && AllDigits(IntDigits(k))
    ensures |IntDigits(k)| > 1 ==> IntDigits(k)[0] != '0'
    ensures |FracDigits(k)| == 4 && AllDigits(FracDigits(k))
    ensures DigitsValue(IntDigits(k)) == Abs(k) / 10000
    ensures DigitsValue(FracDigits(k)) == Abs(k) % 10000
  {
    var m := PaddedDigits(Abs(k));
    var ip, fp := IntDigits(k), FracDigits(k);
    assert m == ip + fp;
    FirstOfPrefix(m, |m| - 4);
    DigitsValueAppend(ip, fp);
    assert Pow10(4) == 10000;
    DivModUnique(Abs(k), DigitsValue(ip), DigitsValue(fp));
  }

  /** toFixed(4) writes a leading "-" exactly for a negative value. */
  lemma ToFixed4Sign(k: int)
    ensures |ToFixed4(k)| >= 6
    ensures ToFixed4(k)[0] == '-' <==> k < 0
  {
    ToFixed4Parts(k);
    var ip := IntDigits(k);
    assert ToFixed4(k) == Sign(k) + (ip + "." + FracDigits(k));
    assert (ip + "." + FracDigits(k))[0] == ip[0];
  }

  /** The toFixed(4) string, read back, denotes exactly k / 10000, with four digits after its point. */
  lemma ToFixed4ReadsBack(k: int)
    ensures ParseScaled(ToFixed4(k)) == Some(k)
    ensures ToFixed4(k)[|ToFixed4(k)| - 5] == '.'
  {
    FixedDigitGroups(k);
    var ip, fp := IntDigits(k), FracDigits(k);
    PointDigitsReadBack(ip, fp);
    SignedReadsBack(k, ip + "." + fp, ip + fp);
    SignFirst(Sign(k), ip, fp);
  }

  /** Reading "<ip>.<fp>" with four fraction digits gives back the digits ip + fp. */
  lemma PointDigitsReadBack(ip: string, fp: string)
    requires |ip| >= 1 && AllDigits(ip) && PointFree(ip) && |fp| == 4 && AllDigits(fp)
    ensures var u := ip + "." + fp;
      ScaledDigits(u) == Some(ip + fp) && u[0] == ip[0] && u[|u| - 5] == '.'
  {
    ParseFraction(ip, fp);
    assert ip + fp + Zeros(0) == ip + fp;
  }

  lemma SignFirst(sg: string, ip: string, t: string)
    ensures sg + (ip + "." + t) == sg + ip + "." + t
  {
  }

  lemma FirstOfPrefix(m: string, n: nat)
    requires 1 <= n <= |m|
    ensures m[..n][0] == m[0] && |m[..n]| == n
  {
  }

  lemma DivModUnique(n: nat, q: nat, r: nat)
    requires n == q * 10000 + r && r < 10000
    ensures q == n / 10000 && r == n % 10000
  {
  }

  // ---------------------------------------------------------------------
  // The two regular-expression replacements

  /** The number of '0' characters that end s. */
  function TrailingZeros(s: string): (z: nat)
    ensures z <= |s|
  {
    if s != [] && s[|s| - 1] == '0' then TrailingZeros(s[..|s| - 1]) + 1 else 0
  }

  /** The last TrailingZeros(s) characters of s are zeros, and the one before them is not. */
  lemma {:induction false} TrailingZerosSpec(s: string)
    ensures var z := TrailingZeros(s);
      (forall i :: |s| - z <= i < |s| ==> s[i] == '0') && (z < |s| ==> s[|s| - z - 1] != '0')
    decreases |s|
  {
    if s != [] && s[|s| - 1] == '0' {
      var s' := s[..|s| - 1];
      TrailingZerosSpec(s');
      assert forall i :: 0 <= i < |s'| ==> s'[i] == s[i];
    }
  }

  /** The index of the last occurrence of c in s, or -1 when c does not occur. */
  function LastIndexOf(s: string, c: char): (i: int)
    ensures -1 <= i < |s|
  {
    if s == [] then -1
    else if s[|s| - 1] == c then |s| - 1
    else LastIndexOf(s[..|s| - 1], c)
  }

  /** LastIndexOf finds an occurrence of c, and none after it. */
  lemma {:induction false} LastIndexOfSpec(s: string, c: char)
    ensures var i := LastIndexOf(s, c);
      (0 <= i ==> s[i] == c) && (forall k :: i < k < |s| ==> s[k] != c)
    decreases |s|
  {
    if s != [] && s[|s| - 1] != c {
      var s' := s[..|s| - 1];
      LastIndexOfSpec(s', c);
      assert forall k :: 0 <= k < |s'| ==> s'[k] == s[k];
    }
  }

  /** The pattern `\.0+$` matches s starting at index i. */
  predicate DotZerosAt(s: string, i: int) {
    0 <= i && i + 1 < |s| && s[i] == '.' &&
    forall k :: i < k < |s| ==> s[k] == '0'
  }

  /**
   * s.replace(/\.0+$/, ''): a run of trailing zeros right after a point is
   * removed together with the point.
   */
  function StripDotZeros(s: string): (r: string)
    ensures r <= s
  {
    var z := TrailingZeros(s);
    if 0 < z < |s| && s[|s| - z - 1] == '.' then s[..|s| - z - 1] else s
  }

  /**
   * StripDotZeros is the replacement of the leftmost match of `\.0+$` by the
   * empty string: when the pattern matches at i, what remains is s[..i];
   * when it matches nowhere, s is unchanged.
   */
  lemma StripDotZerosIsReplace(s: string)
    ensures (forall i :: !DotZerosAt(s, i)) ==> StripDotZeros(s) == s
    ensures forall i :: DotZerosAt(s, i) ==> StripDotZeros(s) == s[..i]
  {
    var z := TrailingZeros(s);
    TrailingZerosSpec(s);
    if 0 < z < |s| && s[|s| - z - 1] == '.' {
      assert DotZerosAt(s, |s| - z - 1);
    }
  }

  /**
   * The pattern `(\.[0-9]*?)0+$` matches s starting at index i with the lazy
   * group `[0-9]*?` taking the j characters after the point.
   */
  predicate FracZerosAt(s: string, i: int, j: int) {
    0 <= i && 0 <= j && i + 1 + j < |s| && s[i] == '.' &&
    (forall k :: i < k <= i + j ==> IsDigit(s[k])) &&
    (forall k :: i + j < k < |s| ==> s[k] == '0')
  }

  /**
   * s.replace(/(\.[0-9]*?)0+$/, '$1'): when only digits follow the last
   * point and s ends in zeros, those trailing zeros are removed.
   */
  function StripFractionZeros(s: string): (r: string)
    ensures r <= s
  {
    var z := TrailingZeros(s);
    var d := LastIndexOf(s, '.');
    if 0 < z && 0 <= d && AllDigits(s[d + 1..]) then s[..|s| - z] else s
  }

  /**
   * StripFractionZeros is the replacement of the leftmost match of
   * `(\.[0-9]*?)0+$` by its group: when the pattern matches at i with the
   * lazy group taking the fewest digits j it can, what remains is the text
   * before the match followed by the group, s[..i + 1 + j]; when it matches
   * nowhere, s is unchanged.
   */
  lemma StripFractionZerosIsReplace(s: string)
    ensures (forall i, j :: !FracZerosAt(s, i, j)) ==> StripFractionZeros(s) == s
    ensures forall i, j :: FracZerosAt(s, i, j) && (forall j' :: 0 <= j' < j ==> !FracZerosAt(s, i, j')) ==>
              StripFractionZeros(s) == s[..i + 1 + j]
  {
    StripFractionZerosNoMatch(s);
    StripFractionZerosLeftmost(s);
  }

  /** Where the pattern matches nowhere, nothing is cut. */
  lemma StripFractionZerosNoMatch(s: string)
    ensures (forall i, j :: !FracZerosAt(s, i, j)) ==> StripFractionZeros(s) == s
  {
    if 0 < TrailingZeros(s) && 0 <= LastIndexOf(s, '.') && AllDigits(s[LastIndexOf(s, '.') + 1..]) {
      FracZerosAtLastPoint(s);
    }
  }

  /** Where the pattern matches, the match with the shortest group ends where the trailing zeros begin. */
  lemma StripFractionZerosLeftmost(s: string)
    ensures forall i, j :: FracZerosAt(s, i, j) && (forall j' :: 0 <= j' < j ==> !FracZerosAt(s, i, j')) ==>
              StripFractionZeros(s) == s[..i + 1 + j]
  {
    var z := TrailingZeros(s);
    var d := LastIndexOf(s, '.');
    FracZerosMatches(s);
    if 0 < z && 0 <= d && AllDigits(s[d + 1..]) {
      FracZerosAtLastPoint(s);
      forall i, j | FracZerosAt(s, i, j) && (forall j' :: 0 <= j' < j ==> !FracZerosAt(s, i, j'))
        ensures i + 1 + j == |s| - z
      {
        assert j <= |s| - z - d - 1;
      }
    }
  }

  /** When s ends in zeros after its last point and only digits follow it, the pattern matches there. */
  lemma FracZerosAtLastPoint(s: string)
    requires 0 < TrailingZeros(s) && 0 <= LastIndexOf(s, '.')
    requires AllDigits(s[LastIndexOf(s, '.') + 1..])
    ensures FracZerosAt(s, LastIndexOf(s, '.'), |s| - TrailingZeros(s) - LastIndexOf(s, '.') - 1)
  {
    var z, d := TrailingZeros(s), LastIndexOf(s, '.');
    TrailingZerosSpec(s);
    LastIndexOfSpec(s, '.');
    forall k | d < k <= |s| - z - 1 ensures IsDigit(s[k]) {
      assert s[d + 1..][k - d - 1] == s[k];
    }
  }

  /**
   * Where `(\.[0-9]*?)0+$` can match: only at the last point of s, when
   * everything after it is a digit and s ends in a zero; the match then
   * covers at least the trailing zeros.
   */
  lemma FracZerosMatches(s: string)
    ensures forall i, j :: FracZerosAt(s, i, j) ==>
              i == LastIndexOf(s, '.') && 0 < TrailingZeros(s) && AllDigits(s[i + 1..]) &&
              |s| - TrailingZeros(s) <= i + 1 + j
  {
    TrailingZerosSpec(s);
    LastIndexOfSpec(s, '.');
    forall i, j | FracZerosAt(s, i, j)
      ensures i == LastIndexOf(s, '.') && 0 < TrailingZeros(s) && AllDigits(s[i + 1..])
      ensures |s| - TrailingZeros(s) <= i + 1 + j
    {
      var d := LastIndexOf(s, '.');
      assert forall k :: i < k < |s| ==> IsDigit(s[k]);
      assert d == i;
      assert s[|s| - 1] == '0';
      var t := s[i + 1..];
      forall k | 0 <= k < |t| ensures IsDigit(t[k]) {
        assert t[k] == s[i + 1 + k];
      }
    }
  }

  /** Both replacements, in the order the formatter applies them. */
  function Trim(s: string): (r: string)
    ensures r <= s
  {
    StripFractionZeros(StripDotZeros(s))
  }

  /** fmt, for a value already rounded to k / 10000. */
  function Fmt(k: int): string {
    Trim(ToFixed4(k))
  }

  /** fmt(n): Math.round(n * 10000) / 10000, then toFixed(4), then the trim. */
  function FmtReal(n: real): string {
    Fmt(RoundHalfUp(n * 10000.0))
  }

  // ---------------------------------------------------------------------
  // Reading a rendered number back

  /**
   * The value, in units of 10^-4, that a reader takes a rendered number to
   * denote: an optional "-", one or more integer digits and, optionally, a
   * point followed by one to four fraction digits; None for anything else.
   */
  function ParseScaled(s: string): Option<int> {
    if |s| > 0 && s[0] == '-' then
      match ParseUnsigned(s[1..])
      case Some(v) => Some(-v)
      case None => None
    else
      ParseUnsigned(s)
  }

  /** An unsigned rendering denotes the number its scaled digits write. */
  function ParseUnsigned(s: string): Option<int> {
    match ScaledDigits(s)
    case Some(ds) => Some(DigitsValue(ds))
    case None => None
  }

  /**
   * The digits of an unsigned rendering once the point is removed and the
   * fraction is padded with zeros to four digits: "2.4" gives "24000".
   */
  function ScaledDigits(s: string): (r: Option<string>)
    ensures r.Some? ==> AllDigits(r.value)
  {
    var d := LastIndexOf(s, '.');
    var ip := if d < 0 then s else s[..d];
    var fp := if d < 0 then "" else s[d + 1..];
    if 1 <= |ip| && AllDigits(ip) && AllDigits(fp) && |fp| <= 4 && (d < 0 || 1 <= |fp|) then
      AllDigitsAppend(ip, fp);
      AllDigitsAppend(ip + fp, Zeros(4 - |fp|));
      Some(ip + fp + Zeros(4 - |fp|))
    else
      None
  }

  lemma AllDigitsAppend(a: string, b: string)
    requires AllDigits(a) && AllDigits(b)
    ensures AllDigits(a + b)
  {
    forall i | 0 <= i < |a + b|
      ensures IsDigit((a + b)[i])
    {
      if i >= |a| {
        assert (a + b)[i] == b[i - |a|];
      }
    }
  }

  // ---------------------------------------------------------------------
  // What fmt promises

  /** A point stops a run of trailing zeros. */
  lemma {:induction false} TrailingZerosAfterPoint(a: string, b: string)
    ensures TrailingZeros(a + "." + b) == TrailingZeros(b)
    decreases |b|
  {
    var s := a + "." + b;
    if b != [] && b[|b| - 1] == '0' {
      assert s[..|s| - 1] == a + "." + b[..|b| - 1];
      TrailingZerosAfterPoint(a, b[..|b| - 1]);
    }
  }

  predicate PointFree(s: string) {
    forall i :: 0 <= i < |s| ==> s[i] != '.'
  }

  /** A string with no point in it has no point to find. */
  lemma PointFreeLastIndex(s: string)
    requires PointFree(s)
    ensures LastIndexOf(s, '.') == -1
  {
  }

  /** Trimming "<pre>.000..." leaves "<pre>". */
  lemma TrimZeroFraction(pre: string, fp: string)
    requires PointFree(pre) && |fp| >= 1 && AllZeros(fp)
    ensures Trim(pre + "." + fp) == pre
  {
    var s := pre + "." + fp;
    TrailingZerosAfterPoint(pre, fp);
    TrailingZerosSpec(fp);
    assert TrailingZeros(fp) == |fp|;
    assert s[|pre|] == '.';
    assert s[..|pre|] == pre;
    assert StripDotZeros(s) == pre;
    PointFreeLastIndex(pre);
  }

  /** `\.0+$` does not match a string whose trailing zeros are not preceded by a point. */
  lemma StripDotZerosKeeps(s: string)
    requires TrailingZeros(s) == 0 || TrailingZeros(s) == |s| || s[|s| - TrailingZeros(s) - 1] != '.'
    ensures StripDotZeros(s) == s
  {
  }

  /** When only digits follow the last point, `(\.[0-9]*?)0+$` -> "$1" cuts exactly the trailing zeros. */
  lemma StripFractionZerosCuts(s: string)
    requires 0 <= LastIndexOf(s, '.') && AllDigits(s[LastIndexOf(s, '.') + 1..])
    ensures StripFractionZeros(s) == s[..|s| - TrailingZeros(s)]
  {
    CutWhen(s, TrailingZeros(s), 0 <= LastIndexOf(s, '.') && AllDigits(s[LastIndexOf(s, '.') + 1..]));
  }

  /** Cutting the last z characters when z is positive and the condition holds is cutting them outright. */
  lemma CutWhen(s: string, z: nat, cond: bool)
    requires z <= |s| && cond
    ensures (if 0 < z && cond then s[..|s| - z] else s) == s[..|s| - z]
  {
    if z == 0 {
      assert s[..|s|] == s;
    }
  }

  /** Trimming "<pre>.<digits>" with a nonzero digit in the fraction cuts only the trailing zeros. */
  lemma TrimNonzeroFraction(pre: string, fp: string)
    requires PointFree(pre) && AllDigits(fp) && TrailingZeros(fp) < |fp|
    ensures Trim(pre + "." + fp) == pre + "." + fp[..|fp| - TrailingZeros(fp)]
  {
    TrimCutsFractionZeros(pre, fp);
    DropFromPointDigits(pre, fp, TrailingZeros(fp));
  }

  lemma TrimCutsFractionZeros(pre: string, fp: string)
    requires PointFree(pre) && AllDigits(fp) && TrailingZeros(fp) < |fp|
    ensures var s := pre + "." + fp; Trim(s) == s[..|s| - TrailingZeros(fp)]
  {
    var s := pre + "." + fp;
    PointDigitsShape(pre, fp);
    StripDotZerosKeeps(s);
    StripFractionZerosCuts(s);
  }

  /** In "<pre>.<digits>" the last point is the one before the digits, and the trailing zeros are the fraction's. */
  lemma PointDigitsShape(pre: string, fp: string)
    requires PointFree(pre) && AllDigits(fp) && TrailingZeros(fp) < |fp|
    ensures var s := pre + "." + fp;
      LastIndexOf(s, '.') == |pre| && AllDigits(s[|pre| + 1..]) &&
      TrailingZeros(s) == TrailingZeros(fp) && s[|s| - TrailingZeros(fp) - 1] != '.'
  {
    TrailingZerosAfterPoint(pre, fp);
    LastPointBeforeDigits(pre, fp);
    NoPointBeforeTrailingZeros(pre, fp);
  }

  lemma NoPointBeforeTrailingZeros(pre: string, fp: string)
    requires AllDigits(fp) && TrailingZeros(fp) < |fp|
    ensures var s := pre + "." + fp; s[|s| - TrailingZeros(fp) - 1] != '.'
  {
    var s := pre + "." + fp;
    var z := TrailingZeros(fp);
    assert s[|s| - z - 1] == fp[|fp| - z - 1];
  }

  /** Dropping the last z characters of "<pre>.<fp>" drops them from fp. */
  lemma DropFromPointDigits(pre: string, fp: string, z: nat)
    requires z <= |fp|
    ensures var s := pre + "." + fp; s[..|s| - z] == pre + "." + fp[..|fp| - z]
  {
  }

  /** In "<pre>.<digits>" with no point in pre, the point found last is the one before the digits. */
  lemma LastPointBeforeDigits(pre: string, fp: string)
    requires PointFree(pre) && AllDigits(fp)
    ensures LastIndexOf(pre + "." + fp, '.') == |pre|
    ensures (pre + "." + fp)[|pre| + 1..] == fp
  {
    var s := pre + "." + fp;
    forall k | |pre| < k < |s|
      ensures s[k] != '.'
    {
      assert s[k] == fp[k - |pre| - 1];
    }
    LastIndexOfIs(s, '.', |pre|);
  }

  /** The last occurrence of c is at i when s[i] is c and no c follows it. */
  lemma LastIndexOfIs(s: string, c: char, i: int)
    requires 0 <= i < |s| && s[i] == c
    requires forall k :: i < k < |s| ==> s[k] != c
    ensures LastIndexOf(s, c) == i
  {
    LastIndexOfSpec(s, c);
  }

  /** Trimming "<pre>.<digits>" leaves TrimDigits(pre, digits). */
  lemma TrimPointDigits(pre: string, fp: string)
    requires PointFree(pre) && AllDigits(fp) && |fp| >= 1
    ensures Trim(pre + "." + fp) == TrimDigits(pre, fp)
  {
    TrailingZerosSpec(fp);
    if TrailingZeros(fp) == |fp| {
      TrimZeroFraction(pre, fp);
    } else {
      TrimNonzeroFraction(pre, fp);
    }
  }

  /**
   * The trimmed rendering described directly, without regular expressions:
   * the sign and integer digits of toFixed(4), followed, unless the four
   * fraction digits are all zeros, by the point and the fraction digits up
   * to the last nonzero one.
   */
  function TrimmedFixed4(k: int): string {
    Sign(k) + TrimDigits(IntDigits(k), FracDigits(k))
  }

  /** The integer digits, then the point and the fraction up to its last nonzero digit, if any. */
  function TrimDigits(ip: string, fp: string): string {
    var z := TrailingZeros(fp);
    if z == |fp| then ip else ip + "." + fp[..|fp| - z]
  }

  /** fmt agrees with the direct description of its result. */
  lemma FmtCases(k: int)
    ensures Fmt(k) == TrimmedFixed4(k)
  {
    SignedIntPointFree(k);
    TrimPointDigits(Sign(k) + IntDigits(k), FracDigits(k));
    SignedTrimDigits(Sign(k), IntDigits(k), FracDigits(k));
  }

  /** A sign in front of the integer digits stays in front through the trim. */
  lemma SignedTrimDigits(sg: string, ip: string, fp: string)
    ensures TrimDigits(sg + ip, fp) == sg + TrimDigits(ip, fp)
  {
  }

  /** Everything toFixed(4) writes before the point is free of points; four digits follow it. */
  lemma SignedIntPointFree(k: int)
    ensures PointFree(Sign(k) + IntDigits(k))
    ensures |FracDigits(k)| == 4 && AllDigits(FracDigits(k))
  {
    ToFixed4Parts(k);
  }

  /** The sign and integer digits hold no point and end in a digit. */
  lemma IntegerPart(k: int)
    ensures var pre := Sign(k) + IntDigits(k);
      PointFree(pre) && |pre| >= 1 && IsDigit(pre[|pre| - 1])
  {
    ToFixed4Parts(k);
    SignedIntPointFree(k);
  }

  /** The direct description is the trim of the two digit groups of toFixed(4), the sign going with the first. */
  lemma TrimmedAsGroups(k: int)
    ensures var pre, fp := Sign(k) + IntDigits(k), FracDigits(k);
      TrimmedFixed4(k) == TrimDigits(pre, fp) && DigitGroups(pre, fp)
  {
    IntegerPart(k);
    SignedIntPointFree(k);
    SignedTrimDigits(Sign(k), IntDigits(k), FracDigits(k));
  }

  /** The four fraction digits are all zeros exactly when the value is a whole number. */
  lemma WholeIffZeroFraction(k: int)
    ensures Abs(k) % 10000 == 0 <==> TrailingZeros(FracDigits(k)) == 4
  {
    ToFixed4Parts(k);
    var fp := FracDigits(k);
    DigitsValueZero(fp);
    TrailingZerosSpec(fp);
    if TrailingZeros(fp) == 4 {
      assert AllZeros(fp);
    } else {
      assert fp[3 - TrailingZeros(fp)] != '0';
    }
  }

  /**
   * What toFixed(4) writes around its point: a sign and integer digits with
   * no point, ending in a digit, and four fraction digits.
   */
  predicate DigitGroups(pre: string, fp: string) {
    PointFree(pre) && |pre| >= 1 && IsDigit(pre[|pre| - 1]) && |fp| == 4 && AllDigits(fp)
  }

  /** Unless the fraction digits are all zeros, those up to the last nonzero one are one to four digits. */
  lemma KeptFraction(fp: string)
    requires |fp| == 4 && AllDigits(fp) && TrailingZeros(fp) < 4
    ensures var t := fp[..4 - TrailingZeros(fp)];
      1 <= |t| <= 4 && AllDigits(t) && t[|t| - 1] != '0'
  {
    TrailingZerosSpec(fp);
  }

  /** In "<pre>.<t>" with no point in pre, the only point is the one before t. */
  lemma FractionPointAt(pre: string, t: string)
    requires PointFree(pre) && AllDigits(t)
    ensures var r := pre + "." + t;
      '.' in r && forall i :: 0 <= i < |r| && r[i] == '.' ==> |r| - 1 - i == |t|
  {
    var r := pre + "." + t;
    assert r[|pre|] == '.';
    assert forall k :: |pre| < k < |r| ==> r[k] == t[k - |pre| - 1];
  }

  /** "<pre>.<t>" ends in the last digit of t. */
  lemma FractionEnd(pre: string, t: string)
    requires |t| >= 1
    ensures var r := pre + "." + t; r[|r| - 1] == t[|t| - 1]
  {
  }

  /** Trim leaves "<pre>.<t>" alone when t ends in a nonzero digit. */
  lemma FractionTrimmed(pre: string, t: string)
    requires |t| >= 1 && t[|t| - 1] != '0'
    ensures Trim(pre + "." + t) == pre + "." + t
  {
    FractionEnd(pre, t);
    TrimUnchanged(pre + "." + t);
  }

  /** A rendering with no point that ends in a digit. */
  lemma WholeForm(pre: string)
    requires PointFree(pre) && |pre| >= 1 && IsDigit(pre[|pre| - 1])
    ensures '.' !in pre && Trim(pre) == pre
  {
    TrimUnchanged(pre);
  }

  /** The trimmed groups are never empty, end in a digit, and in a nonzero digit when they hold a point. */
  lemma TrimDigitsEnds(pre: string, fp: string)
    requires DigitGroups(pre, fp)
    ensures var r := TrimDigits(pre, fp);
      |r| >= 1 && IsDigit(r[|r| - 1]) && ('.' in r ==> '1' <= r[|r| - 1] <= '9')
  {
    var z := TrailingZeros(fp);
    if z < 4 {
      KeptFraction(fp);
      FractionEnd(pre, fp[..4 - z]);
    } else {
      WholeForm(pre);
    }
  }

  /** The trim leaves the trimmed groups alone. */
  lemma TrimDigitsUnchanged(pre: string, fp: string)
    requires DigitGroups(pre, fp)
    ensures Trim(TrimDigits(pre, fp)) == TrimDigits(pre, fp)
  {
    var z := TrailingZeros(fp);
    if z < 4 {
      KeptFraction(fp);
      FractionTrimmed(pre, fp[..4 - z]);
    } else {
      WholeForm(pre);
    }
  }

  /** The trimmed groups hold a point exactly when some fraction digit is not zero, with one to four digits after it. */
  lemma TrimDigitsPoint(pre: string, fp: string)
    requires DigitGroups(pre, fp)
    ensures var r := TrimDigits(pre, fp);
      ('.' in r <==> TrailingZeros(fp) < 4) &&
      forall i :: 0 <= i < |r| && r[i] == '.' ==> 1 <= |r| - 1 - i <= 4
  {
    var z := TrailingZeros(fp);
    if z < 4 {
      KeptFraction(fp);
      FractionPointAt(pre, fp[..4 - z]);
    } else {
      WholeForm(pre);
    }
  }

  /** fmt never returns the empty string, and never a string ending in a point. */
  lemma FmtNoTrailingPoint(k: int)
    ensures |Fmt(k)| >= 1 && Fmt(k)[|Fmt(k)| - 1] != '.'
  {
    FmtCases(k);
    TrimmedAsGroups(k);
    TrimDigitsEnds(Sign(k) + IntDigits(k), FracDigits(k));
  }

  /** Applying the two replacements again to fmt's output changes nothing. */
  lemma FmtIdempotent(k: int)
    ensures Trim(Fmt(k)) == Fmt(k)
  {
    FmtCases(k);
    TrimmedAsGroups(k);
    TrimDigitsUnchanged(Sign(k) + IntDigits(k), FracDigits(k));
  }

  /**
   * fmt writes a point exactly when the rounded value is not a whole number,
   * and then at least one and at most four digits follow it.
   */
  lemma FmtPointIffFraction(k: int)
    ensures ('.' in Fmt(k)) <==> Abs(k) % 10000 != 0
    ensures forall i :: 0 <= i < |Fmt(k)| && Fmt(k)[i] == '.' ==> 1 <= |Fmt(k)| - 1 - i <= 4
  {
    FmtCases(k);
    TrimmedAsGroups(k);
    TrimDigitsPoint(Sign(k) + IntDigits(k), FracDigits(k));
    WholeIffZeroFraction(k);
  }

  /** Whenever a point remains, the last character is a nonzero digit. */
  lemma FmtEndsInNonzeroDigit(k: int)
    ensures '.' in Fmt(k) ==> '1' <= Fmt(k)[|Fmt(k)| - 1] <= '9'
  {
    FmtCases(k);
    TrimmedAsGroups(k);
    TrimDigitsEnds(Sign(k) + IntDigits(k), FracDigits(k));
  }

  /**
   * The trim only removes an end of the toFixed(4) string: the result is a
   * prefix of it that keeps the sign and every integer digit, zeros included.
   */
  lemma FmtPrefixOfFixed(k: int)
    ensures Fmt(k) <= ToFixed4(k)
    ensures Sign(k) + IntDigits(k) <= Fmt(k)
  {
    FmtCases(k);
    ToFixed4Parts(k);
  }

  /** Trim leaves alone a string that has no point or does not end in a zero. */
  lemma TrimUnchanged(s: string)
    requires PointFree(s) || (|s| > 0 && s[|s| - 1] != '0')
    ensures Trim(s) == s
  {
    if PointFree(s) {
      PointFreeLastIndex(s);
    }
  }


  /** Reading a signed rendering: the sign applies to what the digits denote. */
  lemma SignedReadsBack(k: int, u: string, ds: string)
    requires |u| >= 1 && IsDigit(u[0])
    requires ScaledDigits(u) == Some(ds) && DigitsValue(ds) == Abs(k)
    ensures ParseScaled(Sign(k) + u) == Some(k)
  {
    assert ParseUnsigned(u) == Some(Abs(k));
    if k < 0 {
      assert (Sign(k) + u)[1..] == u;
    } else {
      assert Sign(k) + u == u;
    }
  }

  /** Reading "<ip>": the integer digits followed by four zeros. */
  lemma ParseWhole(ip: string)
    requires |ip| >= 1 && AllDigits(ip) && PointFree(ip)
    ensures ScaledDigits(ip) == Some(ip + Zeros(4))
  {
    PointFreeLastIndex(ip);
    assert ip + "" == ip;
  }

  /** Reading "<ip>.<t>": the digits without the point, the fraction padded to four digits. */
  lemma ParseFraction(ip: string, t: string)
    requires |ip| >= 1 && AllDigits(ip) && PointFree(ip) && 1 <= |t| <= 4 && AllDigits(t)
    ensures ScaledDigits(ip + "." + t) == Some(ip + t + Zeros(4 - |t|))
  {
    LastPointBeforeDigits(ip, t);
    BeforePoint(ip, t);
  }

  lemma BeforePoint(pre: string, t: string)
    ensures (pre + "." + t)[..|pre|] == pre
  {
  }

  /** The displayed string denotes exactly the rounded value k / 10000. */
  lemma FmtReadsBack(k: int)
    ensures ParseScaled(Fmt(k)) == Some(k)
  {
    FmtCases(k);
    FixedDigitGroups(k);
    ScaledDigitsOfTrimmed(IntDigits(k), FracDigits(k));
    SignedReadsBack(k, TrimDigits(IntDigits(k), FracDigits(k)), IntDigits(k) + FracDigits(k));
  }

  /** The digit groups of toFixed(4) together write |k|, and the integer group holds no point. */
  lemma FixedDigitGroups(k: int)
    ensures |IntDigits(k)| >= 1 && AllDigits(IntDigits(k)) && PointFree(IntDigits(k))
    ensures |FracDigits(k)| == 4 && AllDigits(FracDigits(k))
    ensures DigitsValue(IntDigits(k) + FracDigits(k)) == Abs(k)
  {
    ToFixed4Parts(k);
    assert PaddedDigits(Abs(k)) == IntDigits(k) + FracDigits(k);
  }

  /** Reading back a trimmed "<ip>.<fp>" restores the digits ip + fp. */
  lemma ScaledDigitsOfTrimmed(ip: string, fp: string)
    requires |ip| >= 1 && AllDigits(ip) && PointFree(ip) && |fp| == 4 && AllDigits(fp)
    ensures ScaledDigits(TrimDigits(ip, fp)) == Some(ip + fp)
    ensures |TrimDigits(ip, fp)| >= 1 && TrimDigits(ip, fp)[0] == ip[0]
  {
    var z := TrailingZeros(fp);
    TrailingZerosSpec(fp);
    if z == 4 {
      assert fp == Zeros(4);
      ParseWhole(ip);
    } else {
      var t := fp[..4 - z];
      assert fp == t + Zeros(z);
      assert ip + t + Zeros(z) == ip + fp;
      ParseFraction(ip, t);
    }
  }

  /**
   * fmt(n) denotes the nearest multiple of 10^-4 to n (a half rounded
   * upward): within half a unit of the fourth decimal.
   */
  lemma FmtRealReadsBack(n: real)
    ensures var k := RoundHalfUp(n * 10000.0);
      ParseScaled(FmtReal(n)) == Some(k) &&
      k as real / 10000.0 - 0.00005 <= n < k as real / 10000.0 + 0.00005
  {
    FmtReadsBack(RoundHalfUp(n * 10000.0));
  }
}
