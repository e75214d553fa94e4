/**
 * The PHP string built-ins the installer relies on, over `string` (`seq<char>`):
 * `trim`, `str_starts_with`, `str_contains`, `strpos`/`stripos`, `explode` with a
 * limit of 2, and `implode`/`explode` on a one-character separator.
 */
module Strings {
  import opened Wrappers

  /** The characters PHP's `trim` removes by default: space, tab, LF, CR, NUL and vertical tab. */
  predicate IsTrimChar(c: char) {
    c == ' ' || c == '\t' || c == '\n' || c == '\r' || c == '\0' || c == '\U{000B}'
  }

  predicate IsDigit(c: char) {
    '0' <= c <= '9'
  }

  /** `ltrim`: drops the leading run of trim characters. */
  function TrimLeft(s: string): string {
    if |s| > 0 && IsTrimChar(s[0]) then TrimLeft(s[1..]) else s
  }

  /** `rtrim`: drops the trailing run of trim characters. */
  function TrimRight(s: string): string {
    if |s| > 0 && IsTrimChar(s[|s| - 1]) then TrimRight(s[..|s| - 1]) else s
  }

  /** `trim`. */
  function Trim(s: string): string {
    TrimRight(TrimLeft(s))
  }

  /** `ltrim` removes exactly the leading run of trim characters. */
  lemma {:induction false} TrimLeftSpec(s: string)
    ensures var r := TrimLeft(s);
      && |r| <= |s| && r == s[|s| - |r|..]
      && (forall k :: 0 <= k < |s| - |r| ==> IsTrimChar(s[k]))
      && (r == [] || !IsTrimChar(r[0]))
  {
    if |s| > 0 && IsTrimChar(s[0]) {
      TrimLeftSpec(s[1..]);
    }
  }

  /** `rtrim` removes exactly the trailing run of trim characters. */
  lemma {:induction false} TrimRightSpec(s: string)
    ensures var r := TrimRight(s);
      && |r| <= |s| && r == s[..|r|]
      && (forall k :: |r| <= k < |s| ==> IsTrimChar(s[k]))
      && (r == [] || !IsTrimChar(r[|r| - 1]))
  {
    if |s| > 0 && IsTrimChar(s[|s| - 1]) {
      TrimRightSpec(s[..|s| - 1]);
    }
  }

  /**
   * `trim` yields the part of `s` between its leading and its trailing run of
   * trim characters: it neither starts nor ends with one, it is empty exactly
   * when `s` holds trim characters only, and it keeps every other character.
   */
  lemma TrimSpec(s: string)
    ensures var r := Trim(s);
      && (forall i :: 0 <= i < |r| ==> r[i] in s)
      && (r == [] || (!IsTrimChar(r[0]) && !IsTrimChar(r[|r| - 1])))
      && (r == [] <==> forall k :: 0 <= k < |s| ==> IsTrimChar(s[k]))
      && (forall k :: 0 <= k < |s| && !IsTrimChar(s[k]) ==> s[k] in r)
      && (exists a, b :: 0 <= a <= b <= |s| && r == s[a..b]
            && (forall k :: 0 <= k < a ==> IsTrimChar(s[k]))
            && (forall k :: b <= k < |s| ==> IsTrimChar(s[k])))
  {
    var left := TrimLeft(s);
    var r := TrimRight(left);
    TrimLeftSpec(s);
    TrimRightSpec(left);
    var drop := |s| - |left|;
    assert r == s[drop..drop + |r|];
    forall k | drop + |r| <= k < |s| ensures IsTrimChar(s[k]) {
      assert s[k] == left[k - drop];
    }
    forall i | 0 <= i < |r| ensures r[i] in s {
      assert r[i] == left[i] == s[drop + i];
    }
    forall k | 0 <= k < |s| && !IsTrimChar(s[k]) ensures s[k] in r {
      assert left[k - drop] == s[k];
      assert r[k - drop] == s[k];
    }
    if r == [] {
      assert left == [];
    }
  }

  /** `str_starts_with` for a one-character prefix. */
  predicate StartsWith(s: string, c: char) {
    |s| > 0 && s[0] == c
  }

  /** `strpos` for a one-character needle: the first index of `c` in `s`, if any. */
  function IndexOf(s: string, c: char): (r: Option<nat>)
    ensures r.Some? ==> r.value < |s| && s[r.value] == c && c !in s[..r.value]
    ensures r.None? <==> c !in s
  {
    if |s| == 0 then None
    else if s[0] == c then Some(0)
    else match IndexOf(s[1..], c)
      case None => None
      case Some(i) => assert s[1..][..i] == s[1..i + 1]; Some(i + 1)
  }

  /**
   * The first element of `explode(c, s, 2)`: the text before the first `c`,
   * or the whole of `s` when `s` has no `c`.
   */
  function Before(s: string, c: char): (r: string)
    ensures r <= s && c !in r
    ensures c in s ==> |r| < |s| && s[|r|] == c
    ensures c !in s ==> r == s
  {
    match IndexOf(s, c)
    case None => s
    case Some(i) => s[..i]
  }

  /** ASCII case folding, the one `stripos` applies. */
  function LowerChar(c: char): char {
    if 'A' <= c <= 'Z' then (c as int + 32) as char else c
  }

  /** `needle` occurs in `hay` at `i`, ignoring ASCII case. */
  predicate MatchesAt(hay: string, needle: string, i: nat) {
    i + |needle| <= |hay| && forall k :: 0 <= k < |needle| ==> LowerChar(hay[i + k]) == LowerChar(needle[k])
  }

  /** `stripos(hay, needle, from)`: the first case-insensitive occurrence at or after `from`. */
  function FindFrom(hay: string, needle: string, from: nat): (r: Option<nat>)
    decreases |hay| - from
    ensures r.Some? ==> from <= r.value && MatchesAt(hay, needle, r.value)
    ensures r.Some? ==> forall q :: from <= q < r.value ==> !MatchesAt(hay, needle, q)
    ensures r.None? ==> forall q :: from <= q ==> !MatchesAt(hay, needle, q)
  {
    if from + |needle| > |hay| then None
    else if MatchesAt(hay, needle, from) then Some(from)
    else FindFrom(hay, needle, from + 1)
  }

  /** `stripos(hay, needle)`: the first position at which `needle` occurs in `hay`, ignoring ASCII case. */
  function StrIPos(hay: string, needle: string): (r: Option<nat>)
    ensures r.Some? ==> MatchesAt(hay, needle, r.value) && forall q :: 0 <= q < r.value ==> !MatchesAt(hay, needle, q)
    ensures r.None? <==> forall q :: 0 <= q ==> !MatchesAt(hay, needle, q)
  {
    FindFrom(hay, needle, 0)
  }

  /** `implode(sep, parts)`. */
  function Join(parts: seq<string>, sep: char): (r: string)
  {
    if |parts| == 0 then ""
    else if |parts| == 1 then parts[0]
    else parts[0] + [sep] + Join(parts[1..], sep)
  }

  /** `explode(sep, s)`: the pieces of `s` between occurrences of `sep`. */
  function Split(s: string, sep: char): (r: seq<string>)
    decreases |s|
    ensures |r| > 0
  {
    match IndexOf(s, sep)
    case None => [s]
    case Some(i) => [s[..i]] + Split(s[i + 1..], sep)
  }

  /** `explode` undoes `implode` when no part contains the separator. */
  lemma {:induction false} SplitJoin(parts: seq<string>, sep: char)
    requires |parts| > 0
    requires forall k :: 0 <= k < |parts| ==> sep !in parts[k]
    ensures Split(Join(parts, sep), sep) == parts
  {
    if |parts| > 1 {
      var s := Join(parts, sep);
      var rest := Join(parts[1..], sep);
      assert s == parts[0] + [sep] + rest;
      assert s[..|parts[0]|] == parts[0];
      assert s[|parts[0]|] == sep;
      assert IndexOf(s, sep) == Some(|parts[0]|);
      assert s[|parts[0]| + 1..] == rest;
      SplitJoin(parts[1..], sep);
    }
  }

  /** `implode` undoes `explode`; and nothing `explode` yields contains the separator. */
  lemma {:induction false} JoinSplit(s: string, sep: char)
    decreases |s|
    ensures Join(Split(s, sep), sep) == s
    ensures forall k :: 0 <= k < |Split(s, sep)| ==> sep !in Split(s, sep)[k]
  {
    match IndexOf(s, sep)
    case None =>
    case Some(i) =>
      JoinSplit(s[i + 1..], sep);
      assert s == s[..i] + [sep] + s[i + 1..];
  }
}
