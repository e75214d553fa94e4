/**
 * `RequirementsCheckerService::checkPHPVersion` and `getPhpVersionInfo`: the
 * running version string is cut down to its leading `^\d+(\.\d+)*` match and
 * compared with the minimum by PHP's `version_compare`, restricted here to
 * numeric dotted versions. `PHP_VERSION` is a parameter.
 */
module PhpVersion {
  import opened Wrappers
  import opened Strings

  /** `RequirementsCheckerService::$_minPhpVersion`. */
  const DefaultMinimum: string := "8.0.0"

  /** `s` matches `\d+(\.\d+)*` as a whole: digits, with single dots between digits. */
  predicate IsNumericDotted(s: string) {
    && |s| > 0
    && IsDigit(s[0])
    && IsDigit(s[|s| - 1])
    && forall i :: 0 <= i < |s| ==> IsDigit(s[i]) || (s[i] == '.' && 0 < i < |s| - 1 && IsDigit(s[i + 1]))
  }

  // ---------------------------------------------------------------------------
  // The leading match of `#^\d+(\.\d+)*#`
  // ---------------------------------------------------------------------------

  /** The number of digits starting at `i`, as the greedy `\d+` takes them. */
  function DigitRun(s: string, i: nat): (n: nat)
    requires i <= |s|
    ensures i + n <= |s|
    decreases |s| - i
  {
    if i < |s| && IsDigit(s[i]) then 1 + DigitRun(s, i + 1) else 0
  }

  lemma {:induction false} DigitRunSpec(s: string, i: nat)
    requires i <= |s|
    ensures forall k :: i <= k < i + DigitRun(s, i) ==> IsDigit(s[k])
    ensures i + DigitRun(s, i) < |s| ==> !IsDigit(s[i + DigitRun(s, i)])
    decreases |s| - i
  {
    if i < |s| && IsDigit(s[i]) {
      DigitRunSpec(s, i + 1);
    }
  }

  /** Where the greedy `(\.\d+)*` stops when the match so far ends at `i`. */
  function VersionEnd(s: string, i: nat): (e: nat)
    requires 0 < i <= |s|
    ensures i <= e <= |s|
    decreases |s| - i
  {
    if i + 1 < |s| && s[i] == '.' && IsDigit(s[i + 1]) then VersionEnd(s, i + 1 + DigitRun(s, i + 1)) else i
  }

  /** `preg_match("#^\d+(\.\d+)*#", $full, $filtered)`: the match, or `None` when there is none. */
  function LeadingVersion(full: string): Option<string> {
    if |full| > 0 && IsDigit(full[0]) then Some(full[..VersionEnd(full, DigitRun(full, 0))]) else None
  }

  /** A numeric dotted prefix followed by a dot and digits is still numeric dotted. */
  lemma ExtendNumericDotted(s: string, i: nat, j: nat)
    requires 0 < i && i + 1 < j <= |s|
    requires IsNumericDotted(s[..i])
    requires s[i] == '.'
    requires forall k :: i < k < j ==> IsDigit(s[k])
    ensures IsNumericDotted(s[..j])
  {
    var p, q := s[..i], s[..j];
    forall k | 0 <= k < |q|
      ensures IsDigit(q[k]) || (q[k] == '.' && 0 < k < |q| - 1 && IsDigit(q[k + 1]))
    {
      if k < i {
        assert q[k] == p[k];
        if !IsDigit(q[k]) {
          assert q[k + 1] == p[k + 1];
        }
      }
    }
  }

  lemma {:induction false} VersionEndSpec(s: string, i: nat)
    requires 0 < i <= |s|
    requires IsNumericDotted(s[..i])
    requires i < |s| ==> !IsDigit(s[i])
    ensures var e := VersionEnd(s, i);
      && IsNumericDotted(s[..e])
      && (e < |s| ==> !IsDigit(s[e]))
      && !(e + 1 < |s| && s[e] == '.' && IsDigit(s[e + 1]))
    decreases |s| - i
  {
    if i + 1 < |s| && s[i] == '.' && IsDigit(s[i + 1]) {
      var j := i + 1 + DigitRun(s, i + 1);
      DigitRunSpec(s, i + 1);
      ExtendNumericDotted(s, i, j);
      VersionEndSpec(s, j);
    }
  }

  /** No prefix longer than `s[..e]` is numeric dotted once the scan has stopped at `e`. */
  lemma StopIsMaximal(s: string, e: nat, k: nat)
    requires 0 < e < k <= |s|
    requires !IsDigit(s[e])
    requires !(e + 1 < |s| && s[e] == '.' && IsDigit(s[e + 1]))
    ensures !IsNumericDotted(s[..k])
  {
    var q := s[..k];
    assert q[e] == s[e];
    if e + 1 < k {
      assert q[e + 1] == s[e + 1];
    }
  }

  /**
   * The match is the longest numeric dotted prefix of the version string,
   * and there is none exactly when no prefix at all is numeric dotted.
   */
  lemma LeadingVersionIsLongestMatch(full: string)
    ensures LeadingVersion(full).None? <==> forall k :: 0 < k <= |full| ==> !IsNumericDotted(full[..k])
    ensures LeadingVersion(full).Some? ==>
      var v := LeadingVersion(full).value;
      && v <= full
      && IsNumericDotted(v)
      && forall k :: |v| < k <= |full| ==> !IsNumericDotted(full[..k])
  {
    if |full| > 0 && IsDigit(full[0]) {
      var i := DigitRun(full, 0);
      DigitRunSpec(full, 0);
      assert IsNumericDotted(full[..i]) by {
        assert forall k :: 0 <= k < i ==> full[..i][k] == full[k];
      }
      VersionEndSpec(full, i);
      var e := VersionEnd(full, i);
      forall k | e < k <= |full|
        ensures !IsNumericDotted(full[..k])
      {
        StopIsMaximal(full, e, k);
      }
    } else {
      forall k | 0 < k <= |full|
        ensures !IsNumericDotted(full[..k])
      {
        assert full[..k][0] == full[0];
      }
    }
  }

  // ---------------------------------------------------------------------------
  // `version_compare` on numeric dotted versions
  // ---------------------------------------------------------------------------

  function DigitValue(c: char): nat
    requires IsDigit(c)
  {
    c as int - '0' as int
  }

  /** `strtol($part, NULL, 10)` on a part without sign or blanks: the value of its leading digits, accumulated in `acc`. */
  function StrToNat(s: string, acc: nat): nat {
    if s == [] || !IsDigit(s[0]) then acc else StrToNat(s[1..], 10 * acc + DigitValue(s[0]))
  }

  /** The numeric parts `version_compare` compares, one per dot-separated part. */
  function Segments(v: string): seq<nat> {
    var parts := Split(v, '.');
    seq(|parts|, k requires 0 <= k < |parts| => StrToNat(parts[k], 0))
  }

  /**
   * The comparison `version_compare` makes of two lists of numeric parts:
   * part by part, and when one list runs out first, the shorter one is lower.
   */
  function Compare(a: seq<nat>, b: seq<nat>): (r: int)
    ensures -1 <= r <= 1
  {
    if a == [] && b == [] then 0
    else if a == [] then -1
    else if b == [] then 1
    else if a[0] < b[0] then -1
    else if a[0] > b[0] then 1
    else Compare(a[1..], b[1..])
  }

  lemma {:induction false} CompareAntisymmetric(a: seq<nat>, b: seq<nat>)
    ensures Compare(a, b) == -Compare(b, a)
  {
    if a != [] && b != [] && a[0] == b[0] {
      CompareAntisymmetric(a[1..], b[1..]);
    }
  }

  lemma {:induction false} CompareZeroIffEqual(a: seq<nat>, b: seq<nat>)
    ensures Compare(a, b) == 0 <==> a == b
  {
    if a != [] && b != [] && a[0] == b[0] {
      CompareZeroIffEqual(a[1..], b[1..]);
      if a[1..] == b[1..] {
        assert a == [a[0]] + a[1..];
        assert b == [b[0]] + b[1..];
      }
    }
  }

  lemma {:induction false} CompareTransitive(a: seq<nat>, b: seq<nat>, c: seq<nat>)
    requires Compare(a, b) <= 0 && Compare(b, c) <= 0
    ensures Compare(a, c) <= 0
  {
    if a != [] && b != [] && c != [] && a[0] == b[0] && b[0] == c[0] {
      CompareTransitive(a[1..], b[1..], c[1..]);
    }
  }

  /** The first part where the lists differ decides: `version_compare('9', '8.0') == 1`. */
  lemma {:induction false} FirstDifferenceDecides(a: seq<nat>, b: seq<nat>, k: nat)
    requires k < |a| && k < |b| && a[..k] == b[..k] && a[k] != b[k]
    ensures Compare(a, b) == if a[k] < b[k] then -1 else 1
  {
    if k > 0 {
      assert a[0] == a[..k][0] == b[..k][0] == b[0];
      assert a[1..][..k - 1] == a[..k][1..] == b[..k][1..] == b[1..][..k - 1];
      FirstDifferenceDecides(a[1..], b[1..], k - 1);
    }
  }

  /** A version that stops where another goes on is the lower one: `version_compare('8.2', '8.2.0') == -1`. */
  lemma {:induction false} ProperPrefixIsLower(a: seq<nat>, tail: seq<nat>)
    requires tail != []
    ensures Compare(a, a + tail) == -1
  {
    if a != [] {
      assert (a + tail)[1..] == a[1..] + tail;
      ProperPrefixIsLower(a[1..], tail);
    }
  }

  /**
   * `version_compare($v1, $v2)` for versions that are empty or numeric dotted;
   * the empty string is below every other version.
   */
  function VersionCompare(v1: string, v2: string): (r: int)
    requires v1 == [] || IsNumericDotted(v1)
    requires v2 == [] || IsNumericDotted(v2)
    ensures -1 <= r <= 1
  {
    if v1 == [] && v2 == [] then 0
    else if v1 == [] then -1
    else if v2 == [] then 1
    else Compare(Segments(v1), Segments(v2))
  }

  // ---------------------------------------------------------------------------
  // checkPHPVersion
  // ---------------------------------------------------------------------------

  /** The array `checkPHPVersion` returns; `current` is `None` where the source reads a missing match. */
  datatype VersionInfo = VersionInfo(full: string, current: Option<string>, minimum: string, supported: bool)

  /** A minimum the model covers: none (`null`), the empty string, or a numeric dotted version. */
  predicate CoveredMinimum(minimum: Option<string>) {
    minimum.None? || minimum.value == "" || IsNumericDotted(minimum.value)
  }

  /** `$minPhpVersion == null` is a loose comparison, so the empty string falls back too. */
  function EffectiveMinimum(minimum: Option<string>): (m: string)
    requires CoveredMinimum(minimum)
    ensures IsNumericDotted(m)
    ensures m == DefaultMinimum <==> minimum.None? || minimum.value == "" || minimum.value == DefaultMinimum
    ensures minimum.Some? && minimum.value != "" ==> m == minimum.value
  {
    assert IsNumericDotted(DefaultMinimum) by {
      assert DefaultMinimum[1] == '.' && DefaultMinimum[3] == '.';
    }
    if minimum.None? || minimum.value == "" then DefaultMinimum else minimum.value
  }

  /** `checkPHPVersion($minPhpVersion)` on a PHP whose `PHP_VERSION` is `full`. */
  function CheckPhpVersion(full: string, minimum: Option<string>): (info: VersionInfo)
    requires CoveredMinimum(minimum)
    ensures info.full == full && info.current == LeadingVersion(full)
    ensures info.minimum == EffectiveMinimum(minimum)
  {
    var current := LeadingVersion(full);
    LeadingVersionIsLongestMatch(full);
    var m := EffectiveMinimum(minimum);
    VersionInfo(full, current, m, VersionCompare(if current.Some? then current.value else "", m) >= 0)
  }

  /**
   * Supported means a version was read and its parts do not rank below the
   * minimum's; without a readable version nothing is supported.
   */
  lemma SupportedMeansNotLower(full: string, minimum: Option<string>)
    requires CoveredMinimum(minimum)
    ensures var info := CheckPhpVersion(full, minimum);
      info.supported <==>
        info.current.Some? && Compare(Segments(info.minimum), Segments(info.current.value)) <= 0
  {
    var info := CheckPhpVersion(full, minimum);
    LeadingVersionIsLongestMatch(full);
    if info.current.Some? {
      CompareAntisymmetric(Segments(info.minimum), Segments(info.current.value));
    }
  }

  /** Lowering the minimum never turns a supported version into an unsupported one. */
  lemma LowerMinimumStaysSupported(full: string, higher: string, lower: string)
    requires IsNumericDotted(higher) && IsNumericDotted(lower)
    requires Compare(Segments(lower), Segments(higher)) <= 0
    requires CheckPhpVersion(full, Some(higher)).supported
    ensures CheckPhpVersion(full, Some(lower)).supported
  {
    SupportedMeansNotLower(full, Some(higher));
    SupportedMeansNotLower(full, Some(lower));
    var v := LeadingVersion(full).value;
    CompareTransitive(Segments(lower), Segments(higher), Segments(v));
  }

  /** A running version always meets itself as the minimum. */
  lemma OwnVersionIsSupported(full: string)
    requires LeadingVersion(full).Some?
    ensures CoveredMinimum(LeadingVersion(full))
    ensures CheckPhpVersion(full, LeadingVersion(full)).supported
  {
    LeadingVersionIsLongestMatch(full);
    var v := LeadingVersion(full).value;
    SupportedMeansNotLower(full, Some(v));
    CompareZeroIffEqual(Segments(v), Segments(v));
  }

  /** A version of three one-digit parts, `a.b.c`, has the parts the three digits denote. */
  lemma SegmentsOfThreeDigits(a: char, b: char, c: char)
    requires IsDigit(a) && IsDigit(b) && IsDigit(c)
    ensures Segments([a, '.', b, '.', c]) == [DigitValue(a), DigitValue(b), DigitValue(c)]
  {
    var v := [a, '.', b, '.', c];
    var w, x := v[2..], v[4..];
    assert v[..1] == [a] && w[..1] == [b] && w[2..] == x == [c];
    assert IndexOf(x, '.') == None;
    assert Split(x, '.') == [[c]];
    assert IndexOf(w, '.') == Some(1);
    assert Split(w, '.') == [[b]] + Split(x, '.');
    assert IndexOf(v, '.') == Some(1);
    assert Split(v, '.') == [[a]] + Split(w, '.');
    OneDigitValue(a);
    OneDigitValue(b);
    OneDigitValue(c);
  }

  /** A single digit reads as its own value. */
  lemma OneDigitValue(d: char)
    requires IsDigit(d)
    ensures StrToNat([d], 0) == DigitValue(d)
  {
    assert [d][1..] == [];
  }

  /** The minimum in force is exactly the parts of the default, `8.0.0`, when none is given. */
  lemma DefaultMinimumParts()
    ensures Segments(EffectiveMinimum(None)) == [8, 0, 0]
  {
    assert DefaultMinimum == ['8', '.', '0', '.', '0'];
    SegmentsOfThreeDigits('8', '0', '0');
  }
}
