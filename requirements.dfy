/**
 * `RequirementsCheckerService::check`: which declared PHP extensions and Apache
 * modules are present. The runtime probes are parameters: `extensionLoaded`
 * stands for `extension_loaded`, and `apacheModules` is the list
 * `apache_get_modules()` returns, or `None` when that function does not exist
 * (PHP is not running as an Apache module).
 */
module Requirements {
  import opened Wrappers

  /** The `requirements` configuration: category name, then the names it declares, in order. */
  type RequirementSpec = seq<(string, seq<string>)>

  /**
   * What `check` returns. `requirements[category][name]` is the recorded
   * result; `errors` stands for the presence of the `errors` key, which the
   * source only ever sets to true and otherwise leaves out.
   */
  datatype CheckResult = CheckResult(requirements: map<string, map<string, bool>>, errors: bool)

  /** `check` looks at a category at all: `php` always, `apache` only when the module list exists. */
  predicate Checkable(category: string, apacheModules: Option<seq<string>>) {
    category == "php" || (category == "apache" && apacheModules.Some?)
  }

  /** `name` is declared under `category`. */
  predicate Declared(spec: RequirementSpec, category: string, name: string) {
    exists i :: 0 <= i < |spec| && spec[i].0 == category && name in spec[i].1
  }

  /** The result recorded for a declared name of a checkable category. */
  predicate Satisfied(category: string, name: string, extensionLoaded: string -> bool, apacheModules: Option<seq<string>>)
    requires Checkable(category, apacheModules)
  {
    if category == "php" then extensionLoaded(name) else name in apacheModules.value
  }

  predicate Recorded(results: map<string, map<string, bool>>, category: string, name: string) {
    category in results && name in results[category]
  }

  /** Some recorded result is false. */
  predicate HasFailure(results: map<string, map<string, bool>>) {
    exists c, n :: c in results && n in results[c] && !results[c][n]
  }

  /** Every category present holds at least one result. */
  predicate NoEmptyCategory(results: map<string, map<string, bool>>) {
    forall c :: c in results ==> results[c] != map[]
  }

  /**
   * `results[category][name] = ok`, creating the category on first use: the
   * one entry is added or overwritten and every other entry stays as it was.
   */
  function Record(results: map<string, map<string, bool>>, category: string, name: string, ok: bool): (r: map<string, map<string, bool>>)
    ensures forall c, n :: Recorded(r, c, n) <==> Recorded(results, c, n) || (c == category && n == name)
    ensures Recorded(r, category, name) && r[category][name] == ok
    ensures forall c, n :: Recorded(results, c, n) && !(c == category && n == name) ==>
      c in r && n in r[c] && r[c][n] == results[c][n]
    ensures NoEmptyCategory(results) ==> NoEmptyCategory(r)
  {
    var row := (if category in results then results[category] else map[])[name := ok];
    assert name in row;
    results[category := row]
  }

  /** Overwriting an entry with the value it already had, or adding one, changes `HasFailure` only by the new value. */
  lemma RecordFailure(results: map<string, map<string, bool>>, category: string, name: string, ok: bool)
    requires Recorded(results, category, name) ==> results[category][name] == ok
    ensures HasFailure(Record(results, category, name, ok)) <==> HasFailure(results) || !ok
  {
    var r := Record(results, category, name, ok);
    if HasFailure(results) {
      var c, n :| Recorded(results, c, n) && !results[c][n];
      assert Recorded(r, c, n) && !r[c][n];
    }
    if !ok {
      assert Recorded(r, category, name) && !r[category][name];
    }
    if HasFailure(r) {
      var c, n :| Recorded(r, c, n) && !r[c][n];
      if !(c == category && n == name) {
        assert Recorded(results, c, n) && !results[c][n];
      }
    }
  }

  /** Once the recorded entries are exactly the declared checkable ones, a failure is a declared unsatisfied requirement. */
  lemma FailureIsUnsatisfied(results: map<string, map<string, bool>>, spec: RequirementSpec, extensionLoaded: string -> bool, apacheModules: Option<seq<string>>)
    requires forall c, n :: Recorded(results, c, n) <==> Checkable(c, apacheModules) && Declared(spec, c, n)
    requires forall c, n :: Recorded(results, c, n) ==> results[c][n] == Satisfied(c, n, extensionLoaded, apacheModules)
    ensures HasFailure(results) <==>
      exists c, n :: Checkable(c, apacheModules) && Declared(spec, c, n) && !Satisfied(c, n, extensionLoaded, apacheModules)
  {
    if HasFailure(results) {
      var c, n :| c in results && n in results[c] && !results[c][n];
      assert Recorded(results, c, n);
    }
    if exists c, n :: Checkable(c, apacheModules) && Declared(spec, c, n) && !Satisfied(c, n, extensionLoaded, apacheModules) {
      var c, n :| Checkable(c, apacheModules) && Declared(spec, c, n) && !Satisfied(c, n, extensionLoaded, apacheModules);
      assert Recorded(results, c, n);
    }
  }

  lemma DeclaredStep(spec: RequirementSpec, t: nat, category: string, name: string)
    requires t < |spec|
    ensures Declared(spec[..t + 1], category, name) <==>
      Declared(spec[..t], category, name) || (spec[t].0 == category && name in spec[t].1)
  {
    if Declared(spec[..t + 1], category, name) {
      var i :| 0 <= i < t + 1 && spec[..t + 1][i].0 == category && name in spec[..t + 1][i].1;
      if i < t {
        assert spec[..t][i] == spec[i];
      }
    }
    if Declared(spec[..t], category, name) {
      var i :| 0 <= i < t && spec[..t][i].0 == category && name in spec[..t][i].1;
      assert spec[..t + 1][i] == spec[i];
    }
    if spec[t].0 == category && name in spec[t].1 {
      assert spec[..t + 1][t] == spec[t];
    }
  }

  /**
   * The nested loops of `check`. Every declared name of a checkable category,
   * and nothing else, gets a result; the result says whether the extension is
   * loaded or the module is in the list; a category appears only once it has a
   * result; and `errors` is set exactly when some recorded result is false.
   * Categories other than `php` and `apache` contribute nothing.
   */
  method Check(spec: RequirementSpec, extensionLoaded: string -> bool, apacheModules: Option<seq<string>>)
    returns (results: CheckResult)
    ensures forall c, n :: Recorded(results.requirements, c, n) <==> Checkable(c, apacheModules) && Declared(spec, c, n)
    ensures forall c, n :: Recorded(results.requirements, c, n) ==>
      results.requirements[c][n] == Satisfied(c, n, extensionLoaded, apacheModules)
    ensures NoEmptyCategory(results.requirements)
    ensures results.errors <==>
      exists c, n :: Checkable(c, apacheModules) && Declared(spec, c, n) && !Satisfied(c, n, extensionLoaded, apacheModules)
  {
    var recorded: map<string, map<string, bool>> := map[];
    var errors := false;
    for t := 0 to |spec|
      invariant forall c, n :: Recorded(recorded, c, n) <==> Checkable(c, apacheModules) && Declared(spec[..t], c, n)
      invariant forall c, n :: Recorded(recorded, c, n) ==> recorded[c][n] == Satisfied(c, n, extensionLoaded, apacheModules)
      invariant NoEmptyCategory(recorded)
      invariant errors <==> HasFailure(recorded)
    {
      var (category, names) := spec[t];
      forall c, n ensures Declared(spec[..t + 1], c, n) <==> Declared(spec[..t], c, n) || (spec[t].0 == c && n in spec[t].1) {
        DeclaredStep(spec, t, c, n);
      }
      if category == "php" || (category == "apache" && apacheModules.Some?) {
        for j := 0 to |names|
          invariant forall c, n :: Recorded(recorded, c, n) <==>
            Checkable(c, apacheModules) && (Declared(spec[..t], c, n) || (c == category && n in names[..j]))
          invariant forall c, n :: Recorded(recorded, c, n) ==> recorded[c][n] == Satisfied(c, n, extensionLoaded, apacheModules)
          invariant NoEmptyCategory(recorded)
          invariant errors <==> HasFailure(recorded)
        {
          assert names[..j + 1] == names[..j] + [names[j]];
          var ok := if category == "php" then extensionLoaded(names[j]) else names[j] in apacheModules.value;
          RecordFailure(recorded, category, names[j], ok);
          recorded := Record(recorded, category, names[j], ok);
          if !ok {
            errors := true;
          }
        }
        assert names[..|names|] == names;
      }
    }
    assert spec[..|spec|] == spec;
    FailureIsUnsatisfied(recorded, spec, extensionLoaded, apacheModules);
    results := CheckResult(recorded, errors);
  }
}
