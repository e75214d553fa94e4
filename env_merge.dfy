/**
 * `RequirementsCheckerService::updateEnv`: the rewrite of the lines of `.env`
 * under an overlay of user-supplied values. Reading the file (PHP's `file` with
 * FILE_IGNORE_NEW_LINES) and writing it back are outside the model: the rewrite
 * takes the file's lines and yields the new lines, which are written joined by
 * "\n" (`Strings.Join`).
 */
module EnvMerge {
  import opened Wrappers
  import opened Strings

  /** The values `updateEnv` receives, keyed by environment variable name. */
  type Overlay = map<string, string>

  /** How `updateEnv` reads one line. */
  datatype LineKind =
    | Blank                      // nothing but trim characters
    | Comment                    // trimmed line starts with '#' and has no '='
    | Placeholder(key: string)   // trimmed line starts with '#' and has '='
    | Active(key: string)        // any other line that has '='
    | Bare                       // any other line

  /**
   * The case split of `updateEnv`. A placeholder's key is the text before the
   * first '=' once the '#' is dropped and the rest trimmed; an active line's
   * key is the text before the first '=' of the line as it is, untrimmed.
   */
  function Classify(line: string): LineKind
  {
    var trim := Trim(line);
    if trim == [] then Blank
    else if StartsWith(trim, '#') then
      if '=' in trim then Placeholder(Before(Trim(trim[1..]), '=')) else Comment
    else if '=' in line then Active(Before(line, '='))
    else Bare
  }

  /** The key a line names, if it is a placeholder or an active line. */
  function KeyOf(line: string): Option<string> {
    match Classify(line)
    case Placeholder(k) => Some(k)
    case Active(k) => Some(k)
    case _ => None
  }

  /** The line `KEY="value"` that `updateEnv` writes. */
  function Quoted(key: string, value: string): string {
    key + "=\"" + value + "\""
  }

  /** What an active line whose key is in the overlay becomes: `APP_KEY` is emptied. */
  function Substituted(key: string, value: string): string {
    if key == "APP_KEY" then key + "=" else Quoted(key, value)
  }

  /** The keys that the placeholder and active lines of `lines` name. */
  function NamedKeys(lines: seq<string>): set<string> {
    if lines == [] then {}
    else NamedKeys(lines[..|lines| - 1]) + match KeyOf(lines[|lines| - 1]) { case Some(k) => {k} case None => {} }
  }

  /** A key is in `NamedKeys(lines)` exactly when some line of `lines` names it. */
  lemma {:induction false} NamedKeysSpec(lines: seq<string>, key: string)
    ensures key in NamedKeys(lines) <==> exists j :: 0 <= j < |lines| && KeyOf(lines[j]) == Some(key)
  {
    if lines != [] {
      var init := lines[..|lines| - 1];
      NamedKeysSpec(init, key);
      if key in NamedKeys(init) {
        var j :| 0 <= j < |init| && KeyOf(init[j]) == Some(key);
        assert lines[j] == init[j];
      }
      if j :| 0 <= j < |lines| - 1 && KeyOf(lines[j]) == Some(key) {
        assert init[j] == lines[j];
      }
    }
  }

  /**
   * Line `i` is a placeholder that receives an inserted line: its key is in
   * the overlay and no earlier line, placeholder or active, named that key.
   */
  predicate Inserts(lines: seq<string>, overlay: Overlay, i: nat)
    requires i < |lines|
  {
    Classify(lines[i]).Placeholder? && Classify(lines[i]).key in overlay
    && Classify(lines[i]).key !in NamedKeys(lines[..i])
  }

  /**
   * The lines that line `i` becomes, stated without reference to the loop:
   * a placeholder is kept and, when it `Inserts`, followed by `KEY="value"`;
   * an active line whose key is in the overlay is replaced; every other line
   * is kept as it is.
   */
  function Expansion(lines: seq<string>, overlay: Overlay, i: nat): (out: seq<string>)
    requires i < |lines|
    ensures 1 <= |out| <= 2
  {
    match Classify(lines[i])
    case Placeholder(k) =>
      if Inserts(lines, overlay, i) then [lines[i], Quoted(k, overlay[k])] else [lines[i]]
    case Active(k) =>
      if k in overlay then [Substituted(k, overlay[k])] else [lines[i]]
    case _ => [lines[i]]
  }

  function Expansions(lines: seq<string>, overlay: Overlay): (e: seq<seq<string>>)
    ensures |e| == |lines|
  {
    seq(|lines|, i requires 0 <= i < |lines| => Expansion(lines, overlay, i))
  }

  /** The concatenation of `chunks`, in order. */
  function Flatten(chunks: seq<seq<string>>): seq<string> {
    if chunks == [] then [] else Flatten(chunks[..|chunks| - 1]) + chunks[|chunks| - 1]
  }

  /** The new content of `.env`, as lines: the expansions of the lines, in order. */
  function Rewritten(lines: seq<string>, overlay: Overlay): seq<string> {
    Flatten(Expansions(lines, overlay))
  }

  /** Where the expansion of line `i` starts in the rewritten lines. */
  function Offset(lines: seq<string>, overlay: Overlay, i: nat): nat
    requires i <= |lines|
  {
    |Flatten(Expansions(lines, overlay)[..i])|
  }

  lemma FlattenStep(chunks: seq<seq<string>>, n: nat)
    requires n < |chunks|
    ensures Flatten(chunks[..n + 1]) == Flatten(chunks[..n]) + chunks[n]
  {
    assert chunks[..n + 1][..n] == chunks[..n];
  }

  /** What line `n` becomes, in terms of the overlay keys named before it. */
  lemma ExpansionByAdded(lines: seq<string>, overlay: Overlay, n: nat, added: set<string>)
    requires n < |lines|
    requires added == NamedKeys(lines[..n]) * overlay.Keys
    ensures match Classify(lines[n])
      case Placeholder(k) =>
        Expansion(lines, overlay, n) == if k in overlay && k !in added then [lines[n], Quoted(k, overlay[k])] else [lines[n]]
      case Active(k) =>
        Expansion(lines, overlay, n) == if k in overlay then [Substituted(k, overlay[k])] else [lines[n]]
      case _ => Expansion(lines, overlay, n) == [lines[n]]
  {
  }

  lemma NamedKeysStep(lines: seq<string>, n: nat)
    requires n < |lines|
    ensures NamedKeys(lines[..n + 1]) == NamedKeys(lines[..n]) + match KeyOf(lines[n]) { case Some(k) => {k} case None => {} }
  {
    assert lines[..n + 1][..n] == lines[..n];
  }

  /** How the overlay keys named so far grow by line `n`. */
  lemma AddedStep(lines: seq<string>, overlay: Overlay, n: nat)
    requires n < |lines|
    ensures NamedKeys(lines[..n + 1]) * overlay.Keys ==
      NamedKeys(lines[..n]) * overlay.Keys + match KeyOf(lines[n]) { case Some(k) => if k in overlay then {k} else {} case None => {} }
  {
    NamedKeysStep(lines, n);
  }

  /**
   * The loop of `updateEnv`. `added` holds exactly the overlay keys that some
   * line seen so far named; a placeholder whose key is in the overlay and not
   * yet in `added` gets `KEY="value"` after it, an active line whose key is in
   * the overlay is replaced whatever `added` holds.
   */
  method UpdateEnv(lines: seq<string>, userData: Overlay) returns (newLines: seq<string>)
    ensures newLines == Rewritten(lines, userData)
  {
    newLines := [];
    var added: set<string> := {};
    ghost var expansions := Expansions(lines, userData);
    assert expansions[..0] == [];
    for n := 0 to |lines|
      invariant newLines == Flatten(expansions[..n])
      invariant added == NamedKeys(lines[..n]) * userData.Keys
    {
      var line := lines[n];
      AddedStep(lines, userData, n);
      FlattenStep(expansions, n);
      ExpansionByAdded(lines, userData, n, added);
      var emitted: seq<string>;
      match Classify(line) {
      case Placeholder(key) =>
        assert KeyOf(line) == Some(key);
        emitted := [line];
        if key in userData && key !in added {
          emitted := emitted + [key + "=\"" + userData[key] + "\""];
          added := added + {key};
        }
      case Active(key) =>
        assert KeyOf(line) == Some(key);
        if key in userData {
          if key == "APP_KEY" {
            emitted := [key + "="];
          } else {
            emitted := [key + "=\"" + userData[key] + "\""];
          }
          added := added + {key};
        } else {
          emitted := [line];
        }
      case _ =>
        assert KeyOf(line) == None;
        emitted := [line];
      }
      assert emitted == Expansion(lines, userData, n);
      assert expansions[n] == emitted;
      newLines := newLines + emitted;
      assert newLines == Flatten(expansions[..n + 1]);
    }
    assert expansions[..|lines|] == expansions;
  }

  // Properties of the rewrite.

  lemma {:induction false} FlattenConcat(a: seq<seq<string>>, b: seq<seq<string>>)
    decreases |b|
    ensures Flatten(a + b) == Flatten(a) + Flatten(b)
  {
    if b != [] {
      var init := b[..|b| - 1];
      assert (a + b)[..|a + b| - 1] == a + init;
      assert (a + b)[|a + b| - 1] == b[|b| - 1];
      FlattenConcat(a, init);
      calc {
        Flatten(a + b);
        Flatten(a + init) + b[|b| - 1];
        Flatten(a) + Flatten(init) + b[|b| - 1];
        Flatten(a) + Flatten(b);
      }
    } else {
      assert a + b == a;
    }
  }

  /** The expansion of line `i` sits in the rewritten lines from `Offset(i)` on, just before `Offset(i + 1)`. */
  lemma RewrittenAt(lines: seq<string>, overlay: Overlay, i: nat)
    requires i < |lines|
    ensures Offset(lines, overlay, i + 1) == Offset(lines, overlay, i) + |Expansion(lines, overlay, i)|
    ensures Offset(lines, overlay, i + 1) <= |Rewritten(lines, overlay)|
    ensures Rewritten(lines, overlay)[Offset(lines, overlay, i)] == Expansion(lines, overlay, i)[0]
    ensures |Expansion(lines, overlay, i)| == 2 ==>
      Rewritten(lines, overlay)[Offset(lines, overlay, i) + 1] == Expansion(lines, overlay, i)[1]
  {
    var e := Expansions(lines, overlay);
    FlattenStep(e, i);
    assert e == e[..i + 1] + e[i + 1..];
    FlattenConcat(e[..i + 1], e[i + 1..]);
    var out := Flatten(e[..i]) + e[i] + Flatten(e[i + 1..]);
    assert Rewritten(lines, overlay) == out;
    var at := |Flatten(e[..i])|;
    assert out[at] == e[i][0];
    if |e[i]| == 2 {
      assert out[at + 1] == e[i][1];
    }
  }

  /** Line `i`'s expansion comes no later than line `j`'s. */
  lemma OffsetMonotone(lines: seq<string>, overlay: Overlay, i: nat, j: nat)
    requires i <= j <= |lines|
    ensures Offset(lines, overlay, i) <= Offset(lines, overlay, j)
  {
    var e := Expansions(lines, overlay);
    assert e[..j] == e[..i] + e[i..j];
    FlattenConcat(e[..i], e[i..j]);
  }

  lemma {:induction false} FlattenSingletons(chunks: seq<seq<string>>, lines: seq<string>)
    requires |chunks| == |lines|
    requires forall i :: 0 <= i < |lines| ==> chunks[i] == [lines[i]]
    ensures Flatten(chunks) == lines
  {
    if lines != [] {
      var n := |lines| - 1;
      FlattenSingletons(chunks[..n], lines[..n]);
      assert lines == lines[..n] + [lines[n]];
    }
  }

  /** With an empty overlay, `updateEnv` writes back exactly the lines it read, in order. */
  lemma EmptyOverlayIsIdentity(lines: seq<string>)
    ensures Rewritten(lines, map[]) == lines
  {
    FlattenSingletons(Expansions(lines, map[]), lines);
  }

  /**
   * A blank line, a comment without '=' and a line that is neither and has no '='
   * are written as they are, and the next line written comes from the next input line.
   */
  lemma KeptLineVerbatim(lines: seq<string>, overlay: Overlay, i: nat)
    requires i < |lines|
    requires Classify(lines[i]).Blank? || Classify(lines[i]).Comment? || Classify(lines[i]).Bare?
    ensures Offset(lines, overlay, i + 1) == Offset(lines, overlay, i) + 1 <= |Rewritten(lines, overlay)|
    ensures Rewritten(lines, overlay)[Offset(lines, overlay, i)] == lines[i]
  {
    RewrittenAt(lines, overlay, i);
  }

  /**
   * A placeholder `#KEY=...` is written as it is; it is followed by the one line
   * `KEY="value"` exactly when KEY is in the overlay and no earlier line named KEY,
   * and by nothing otherwise.
   */
  lemma PlaceholderKept(lines: seq<string>, overlay: Overlay, i: nat)
    requires i < |lines| && Classify(lines[i]).Placeholder?
    ensures Offset(lines, overlay, i) < Offset(lines, overlay, i + 1) <= |Rewritten(lines, overlay)|
    ensures var k := Classify(lines[i]).key;
      var out := Rewritten(lines, overlay);
      var at := Offset(lines, overlay, i);
      && out[at] == lines[i]
      && (if k in overlay && k !in NamedKeys(lines[..i])
          then Offset(lines, overlay, i + 1) == at + 2 && out[at + 1] == Quoted(k, overlay[k])
          else Offset(lines, overlay, i + 1) == at + 1)
  {
    RewrittenAt(lines, overlay, i);
  }

  /**
   * An active line whose key is in the overlay is replaced by the one line
   * `KEY="value"`, or `APP_KEY=` for the application key; any other active line
   * is written as it is.
   */
  lemma ActiveReplaced(lines: seq<string>, overlay: Overlay, i: nat)
    requires i < |lines| && Classify(lines[i]).Active?
    ensures Offset(lines, overlay, i) < Offset(lines, overlay, i + 1) <= |Rewritten(lines, overlay)|
    ensures var k := Classify(lines[i]).key;
      && Offset(lines, overlay, i + 1) == Offset(lines, overlay, i) + 1
      && Rewritten(lines, overlay)[Offset(lines, overlay, i)] ==
         if k !in overlay then lines[i] else if k == "APP_KEY" then "APP_KEY=" else Quoted(k, overlay[k])
  {
    RewrittenAt(lines, overlay, i);
  }

  /** How many of the first `n` lines receive an inserted line after them. */
  function Insertions(lines: seq<string>, overlay: Overlay, n: nat): nat
    requires n <= |lines|
  {
    if n == 0 then 0 else Insertions(lines, overlay, n - 1) + if Inserts(lines, overlay, n - 1) then 1 else 0
  }

  lemma ExpansionSize(lines: seq<string>, overlay: Overlay, i: nat)
    requires i < |lines|
    ensures |Expansion(lines, overlay, i)| == if Inserts(lines, overlay, i) then 2 else 1
  {
  }

  /** Line `i` takes up two rewritten lines when it receives an insertion, and one otherwise. */
  lemma OffsetStep(lines: seq<string>, overlay: Overlay, i: nat)
    requires i < |lines|
    ensures Offset(lines, overlay, i + 1) == Offset(lines, overlay, i) + if Inserts(lines, overlay, i) then 2 else 1
  {
    var e := Expansions(lines, overlay);
    FlattenStep(e, i);
    assert e[i] == Expansion(lines, overlay, i);
    ExpansionSize(lines, overlay, i);
  }

  /** Line `n`'s rewrite starts after one written line per earlier input line plus one per earlier insertion. */
  lemma {:induction false} RewrittenLength(lines: seq<string>, overlay: Overlay, n: nat)
    requires n <= |lines|
    ensures Offset(lines, overlay, n) == n + Insertions(lines, overlay, n)
  {
    if n == 0 {
      assert Expansions(lines, overlay)[..0] == [];
    } else {
      RewrittenLength(lines, overlay, n - 1);
      OffsetStep(lines, overlay, n - 1);
    }
  }

  /** `updateEnv` writes one line per input line plus one per insertion. */
  lemma RewrittenSize(lines: seq<string>, overlay: Overlay)
    ensures |Rewritten(lines, overlay)| == |lines| + Insertions(lines, overlay, |lines|)
  {
    RewrittenLength(lines, overlay, |lines|);
    assert Expansions(lines, overlay)[..|lines|] == Expansions(lines, overlay);
  }

  /** No key is inserted twice. */
  lemma InsertedOnce(lines: seq<string>, overlay: Overlay, i: nat, j: nat)
    requires i < j < |lines|
    requires Inserts(lines, overlay, i) && Inserts(lines, overlay, j)
    ensures Classify(lines[i]).key != Classify(lines[j]).key
  {
    assert lines[..j][i] == lines[i];
    NamedKeysSpec(lines[..j], Classify(lines[i]).key);
  }

  lemma UnmatchedKeyIgnoredAt(lines: seq<string>, overlay: Overlay, key: string, i: nat)
    requires i < |lines| && KeyOf(lines[i]) != Some(key)
    ensures Expansion(lines, overlay, i) == Expansion(lines, overlay - {key}, i)
  {
  }

  /** An overlay key that no line names changes nothing: such keys are dropped. */
  lemma UnmatchedKeyIgnored(lines: seq<string>, overlay: Overlay, key: string)
    requires key !in NamedKeys(lines)
    ensures Rewritten(lines, overlay) == Rewritten(lines, overlay - {key})
  {
    var smaller := overlay - {key};
    NamedKeysSpec(lines, key);
    forall i | 0 <= i < |lines|
      ensures Expansion(lines, overlay, i) == Expansion(lines, smaller, i)
    {
      UnmatchedKeyIgnoredAt(lines, overlay, key, i);
    }
    assert Expansions(lines, overlay) == Expansions(lines, smaller);
  }

  /**
   * The active-line substitution does not consult `added`: a placeholder that
   * receives `KEY="value"`, followed later by an active line for the same KEY,
   * leaves two identical `KEY="value"` lines in the output.
   */
  lemma PlaceholderThenActiveDuplicates(lines: seq<string>, overlay: Overlay, i: nat, j: nat)
    requires i < j < |lines| && Inserts(lines, overlay, i)
    requires Classify(lines[j]) == Active(Classify(lines[i]).key) && Classify(lines[j]).key != "APP_KEY"
    ensures Offset(lines, overlay, i) + 1 < Offset(lines, overlay, j) < |Rewritten(lines, overlay)|
    ensures var k := Classify(lines[i]).key;
      var out := Rewritten(lines, overlay);
      && Offset(lines, overlay, i) + 1 < Offset(lines, overlay, j)
      && out[Offset(lines, overlay, i) + 1] == Quoted(k, overlay[k])
      && out[Offset(lines, overlay, j)] == Quoted(k, overlay[k])
  {
    PlaceholderKept(lines, overlay, i);
    ActiveReplaced(lines, overlay, j);
    OffsetMonotone(lines, overlay, i + 1, j);
  }
}
