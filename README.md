# laravel-cli-installer, modelled in Dafny

This project models the core of the `erag:app-setup` console command of
*laravel-cli-installer*. The command checks the PHP version and server
requirements of a Laravel application, asks for the `.env` settings, checks
the database connection, rewrites `.env` and generates the application key.
The same command class also defines an admin account form, `askAccountForm`.
It is reached only through `createAdminAccount`, which the command does not
call. The model covers these parts:

- `RequirementsCheckerService::check` records, per declared PHP extension and
  Apache module, whether it is present. It also records whether anything is
  missing (`requirements.dfy`, module `Requirements`).
- `checkPHPVersion` and `getPhpVersionInfo` read the running version as the
  leading `^\d+(\.\d+)*` match of `PHP_VERSION`. They fall back to the default
  minimum `8.0.0` and compare with PHP's `version_compare`
  (`php_version.dfy`, module `PhpVersion`).
- `updateEnv` rewrites the lines of `.env` under an overlay of user values
  (`env_merge.dfy`, module `EnvMerge`):
  - a commented placeholder `#KEY=...` gets `KEY="value"` inserted after it,
    once per key;
  - an active `KEY=...` line is replaced by `KEY="value"`, or by `APP_KEY=`
    for the application key;
  - every other line is kept.
- `AppSetupCommand::askEnvValues` asks ten prompts with their defaults,
  re-asks the database details until the connection probe succeeds, and
  returns a ten-entry map (`env_prompts.dfy`, module `EnvPrompts`).
- `AppSetupCommand::askAccountForm` prompts once per configured field and
  retries until the validator accepts the value. It includes the
  password-confirmation loop, the `required`/`rules` defaults and the
  case-insensitive multisearch filter (`account_form.dfy`, module
  `AccountForm`).

`Strings` (`strings.dfy`) holds the PHP string functions the core uses:
`trim`, `str_starts_with` (for the `#` test of a trimmed line), `strpos`,
`explode`, `implode` and ASCII `stripos`.
`Wrappers` (`wrappers.dfy`) holds `Option`.

Loops that change state stay loops. `EnvMerge.UpdateEnv`,
`Requirements.Check`, `EnvPrompts.AskEnvValues` and
`AccountForm.AskAccountForm` are methods with the source's loops.
`UpdateEnv`, `AskEnvValues` and `AskAccountForm` are proved equal to a
function that states the result without the loop (`Rewritten`, `EnvSetup`,
`RunFrom`). The properties are proved about those functions.
`Requirements.Check` states its result directly in its postconditions: which
entries are recorded, what each holds, and when `errors` is set.

The environment is passed in as parameters:

- `PHP_VERSION` is a string;
- `extension_loaded` is a function;
- `apache_get_modules()` is an optional list (`None` when the function does
  not exist);
- `checkDatabaseConnection` is a `Probe` that also sees the attempt number;
- the Laravel validator is a predicate on key, value and rule string.

Prompt replies are a finite stream. A prompt that would need more replies than
the stream holds ends the model in `OutOfInput`, where the command would wait
for ever. A retry loop that repeats without reading input ends in `Hangs`.

Behaviour reproduced from the code as written:

- **`APP_KEY` is emptied only on an active line whose key is in the overlay.**
  `askEnvValues` never supplies `APP_KEY`, so in the setup flow the
  `APP_KEY` line is written back unchanged and never blanked
  (`EnvPrompts.AppKeyLineKept`).
- **A placeholder followed by an active line for the same overlay key gives
  two `KEY="value"` lines.** The active-line branch does not consult `$added`
  (`EnvMerge.PlaceholderThenActiveDuplicates`).
- **`label` has no fallback.** `$field['label']` is read directly and is not
  replaced by a form of the key.
- **Malformed field descriptors are not skipped.** A confirm field whose match
  value is not set does not prompt for the missing value. It re-prompts for
  the confirmation for ever (`AccountForm.ConfirmWithoutMatchNeverEnds`).
- **An unrecognized field type stores `null` when `null` passes the rules.**
  Otherwise it loops without reading input.
- **The multisearch filter keeps the original keys** of the options it
  returns (`array_filter`), so the model returns `(key, option)` pairs.
- **`version_compare` ranks a version that is a proper prefix of another
  lower.** So `8.2` is below `8.2.0`.
- **`$minPhpVersion == null` is a loose comparison**, so an empty minimum falls
  back to `8.0.0` as `null` does.

## Model

| member | source | states |
|---|---|---|
| EnvMerge.UpdateEnv | src/Services/RequirementsCheckerService.php:120-179 | the loop's new lines are exactly `Rewritten(lines, userData)`: each line's expansion in order. Its invariant ties `$added` to the overlay keys named by earlier lines |
| EnvMerge.Classify | src/Services/RequirementsCheckerService.php:130-157 | the case split of one line. An empty trimmed line is blank. A trimmed line starting with `#` is a placeholder when it contains `=`, and a comment otherwise. The placeholder's key is the text after `#`, trimmed, up to its first `=`. Any other line containing `=` is active, with the untrimmed text before the first `=` as key. The rest are bare. Its properties are stated through `Expansion` and the lemmas below |
| EnvMerge.Expansion | src/Services/RequirementsCheckerService.php:128-174 | every input line yields one or two output lines |
| EnvMerge.NamedKeysSpec | src/Services/RequirementsCheckerService.php:142-167 | a key is among the keys named so far exactly when some earlier placeholder or active line names it |
| EnvMerge.ExpansionByAdded | src/Services/RequirementsCheckerService.php:132-173 | the loop's case split, stated with `$added`. A placeholder gets `KEY="v"` after it only if KEY is in the overlay and not yet added. An active line with an overlay key is replaced whatever `$added` holds, `APP_KEY` by `APP_KEY=`. Other lines are kept |
| EnvMerge.AddedStep | src/Services/RequirementsCheckerService.php:144-167 | `$added` grows by a line's key exactly when the line names a key of the overlay |
| EnvMerge.ExpansionSize | src/Services/RequirementsCheckerService.php:140-145 | a line becomes two lines exactly when it is a placeholder that receives an insertion |
| EnvMerge.UnmatchedKeyIgnoredAt | src/Services/RequirementsCheckerService.php:142-159 | removing from the overlay a key that a line does not name leaves that line's output unchanged |
| EnvMerge.RewrittenAt | src/Services/RequirementsCheckerService.php:128-174 | line i's expansion appears in the output at `Offset(i)`, and the next line's expansion follows it |
| EnvMerge.OffsetMonotone | src/Services/RequirementsCheckerService.php:128-174 | the rewrite preserves the order of the lines |
| EnvMerge.EmptyOverlayIsIdentity | src/Services/RequirementsCheckerService.php:120-179 | with an empty overlay the lines are written back unchanged and in order |
| EnvMerge.KeptLineVerbatim | src/Services/RequirementsCheckerService.php:150-173 | blank lines, comments without `=` and lines without `=` are written as they are, as one line |
| EnvMerge.PlaceholderKept | src/Services/RequirementsCheckerService.php:135-147 | a placeholder is kept. It is followed by `KEY="value"` exactly when KEY is in the overlay and no earlier line named it, else by nothing |
| EnvMerge.ActiveReplaced | src/Services/RequirementsCheckerService.php:155-170 | an active line becomes `KEY="value"`, or `APP_KEY=` for the application key, when its untrimmed key is in the overlay, and is kept otherwise |
| EnvMerge.OffsetStep | src/Services/RequirementsCheckerService.php:140-145 | a line takes two output lines when it receives an insertion and one otherwise |
| EnvMerge.RewrittenLength | src/Services/RequirementsCheckerService.php:128-174 | line n's output starts after n lines plus one per insertion before it |
| EnvMerge.RewrittenSize | src/Services/RequirementsCheckerService.php:128-174 | the output has one line per input line plus one per insertion |
| EnvMerge.InsertedOnce | src/Services/RequirementsCheckerService.php:142-144 | two placeholders that both receive an insertion have different keys |
| EnvMerge.UnmatchedKeyIgnored | src/Services/RequirementsCheckerService.php:142-159 | an overlay key that no line names has no effect on the output |
| EnvMerge.PlaceholderThenActiveDuplicates | src/Services/RequirementsCheckerService.php:142-167 | a placeholder that receives `KEY="v"`, followed by an active line for KEY, leaves two `KEY="v"` lines in the output |
| Strings.TrimSpec | src/Services/RequirementsCheckerService.php:130 | `trim` yields the unbroken slice of the input between a leading and a trailing run of trim characters. The slice starts and ends with non-trim characters, is empty exactly when every character is a trim character, and keeps every non-trim character |
| Strings.TrimLeftSpec | src/Services/RequirementsCheckerService.php:130 | the left trim drops exactly the leading run of trim characters: what it drops are trim characters, and what is left starts with a non-trim character |
| Strings.TrimRightSpec | src/Services/RequirementsCheckerService.php:130 | the right trim drops exactly the trailing run of trim characters |
| Strings.IndexOf | src/Services/RequirementsCheckerService.php:155 | the first index of the character if present, and `None` exactly when it is absent |
| Strings.Before | src/Services/RequirementsCheckerService.php:157 | `explode('=', s, 2)[0]` is a prefix free of `=` that ends at the first `=`, or the whole string when there is none |
| Strings.FindFrom | src/Commands/AppSetupCommand.php:357 | the first case-insensitive occurrence at or after the start, or `None` when there is none |
| Strings.StrIPos | src/Commands/AppSetupCommand.php:357 | `stripos` finds the first case-insensitive occurrence, and `None` exactly when there is none |
| Strings.SplitJoin | src/Services/RequirementsCheckerService.php:176 | lines joined by `"\n"` split back into the same lines when none contains the separator |
| Strings.JoinSplit | src/Services/RequirementsCheckerService.php:176 | splitting and joining again gives back the text, and no piece contains the separator |
| Requirements.Check | src/Services/RequirementsCheckerService.php:16-53 | a result is recorded exactly for the names declared under `php`, and under `apache` only when `apache_get_modules` exists. Each result is `extension_loaded` or apache-module membership, no category is empty, and `errors` is set exactly when some recorded name is missing |
| Requirements.Record | src/Services/RequirementsCheckerService.php:25-28 | the assignment `$results['requirements'][$type][$requirement]` adds or overwrites that one entry and leaves every other entry as it was |
| Requirements.RecordFailure | src/Services/RequirementsCheckerService.php:28-30 | recording a result adds a failure exactly when the result is false |
| Requirements.DeclaredStep | src/Services/RequirementsCheckerService.php:22-47 | the outer loop's step: a name is declared in the first t+1 entries exactly when it is declared in the first t or in entry t |
| Requirements.FailureIsUnsatisfied | src/Services/RequirementsCheckerService.php:30-45 | a recorded failure is exactly a declared, checkable, missing requirement |
| PhpVersion.LeadingVersion | src/Services/RequirementsCheckerService.php:86-87 | `$filtered[0]` of the `preg_match`: the greedy digit run followed by every `.digits` group that follows, or `None` when `PHP_VERSION` does not start with a digit. `LeadingVersionIsLongestMatch` states its meaning |
| PhpVersion.LeadingVersionIsLongestMatch | src/Services/RequirementsCheckerService.php:86-87 | the version read is the longest prefix of `PHP_VERSION` matching `\d+(\.\d+)*`, and there is none exactly when no prefix matches |
| PhpVersion.DigitRunSpec | src/Services/RequirementsCheckerService.php:86 | the `\d+` scan covers only digits and stops before a non-digit or at the end |
| PhpVersion.VersionEndSpec | src/Services/RequirementsCheckerService.php:86 | the greedy `(\.\d+)*` scan keeps the match well formed and stops only where no `.digit` follows |
| PhpVersion.Compare | src/Services/RequirementsCheckerService.php:68 | the comparison of numeric parts yields -1, 0 or 1 |
| PhpVersion.FirstDifferenceDecides | src/Services/RequirementsCheckerService.php:68 | the first part where two part lists differ decides the comparison, whatever their lengths (`9` is above `8.0`) |
| PhpVersion.CompareAntisymmetric | src/Services/RequirementsCheckerService.php:68 | swapping the operands negates the result |
| PhpVersion.CompareZeroIffEqual | src/Services/RequirementsCheckerService.php:68 | two part lists compare equal exactly when they are equal |
| PhpVersion.CompareTransitive | src/Services/RequirementsCheckerService.php:68 | "not above" is transitive |
| PhpVersion.ProperPrefixIsLower | src/Services/RequirementsCheckerService.php:68 | a part list that stops where another goes on is lower (`8.2` < `8.2.0`) |
| PhpVersion.VersionCompare | src/Services/RequirementsCheckerService.php:68 | `version_compare` on empty or numeric dotted versions yields -1, 0 or 1 |
| PhpVersion.EffectiveMinimum | src/Services/RequirementsCheckerService.php:60-66 | a given non-empty minimum is used as it is. Without one, or with the empty string, the minimum is `8.0.0`, and the result is numeric dotted |
| PhpVersion.CheckPhpVersion | src/Services/RequirementsCheckerService.php:58-78 | the result carries `PHP_VERSION` unchanged, the leading match as `current` and the minimum in force |
| PhpVersion.SupportedMeansNotLower | src/Services/RequirementsCheckerService.php:68-70 | `supported` holds exactly when a current version was read and the minimum's parts do not rank above its parts |
| PhpVersion.LowerMinimumStaysSupported | src/Services/RequirementsCheckerService.php:68-70 | a version supported under a minimum stays supported under any lower minimum |
| PhpVersion.OwnVersionIsSupported | src/Services/RequirementsCheckerService.php:68-70 | a running version meets itself as the minimum |
| PhpVersion.DefaultMinimumParts | src/Services/RequirementsCheckerService.php:11 | without a minimum the comparison is against the parts [8, 0, 0] |
| AccountForm.EffectiveRequired | src/Commands/AppSetupCommand.php:286 | a field is required exactly when its `required` entry is true |
| AccountForm.EffectiveRules | src/Commands/AppSetupCommand.php:287 | given rules are used as they are. Otherwise the rules are `required` exactly when the field is required and `nullable` exactly when it is not |
| AccountForm.FilterFrom | src/Commands/AppSetupCommand.php:356-358 | the `array_filter` with `stripos` over the options from a given key on, kept as `(key, option)` pairs. `FilterFromSpec` states its meaning |
| AccountForm.SearchOptions | src/Commands/AppSetupCommand.php:353-359 | the options closure: every option with its key for the empty search, and the filter otherwise. `SearchOptionsSpec` states its meaning |
| AccountForm.FilterFromSpec | src/Commands/AppSetupCommand.php:356-358 | the filter keeps option keys and values in increasing key order, and lists an option exactly when it contains the search, ignoring case |
| AccountForm.SearchOptionsSpec | src/Commands/AppSetupCommand.php:353-359 | the closure returns `(key, option)` pairs in key order, exactly the options containing the search, and for the empty search all of them |
| AccountForm.EmptySearchIsFilter | src/Commands/AppSetupCommand.php:354-358 | the empty-search shortcut returns what the filter would |
| AccountForm.ConfirmLoop | src/Commands/AppSetupCommand.php:307-323 | a confirmation that ends has read at least one reply |
| AccountForm.PromptOnce | src/Commands/AppSetupCommand.php:294-363 | an answered pass reads no more replies than there are, and a pass of a recognized type that is answered reads at least one |
| AccountForm.AskField | src/Commands/AppSetupCommand.php:291-377 | the `while (true)` of one field: prompt once, accept the value when the validator passes it, else prompt again. An unrecognized type that fails validation repeats without reading input (`Hangs`). `AcceptedIsValid`, `PromptingFieldTakesFirstValid`, `ConfirmedEqualsMatch` and `UnrecognizedFieldIsNull` state its meaning |
| AccountForm.RunFrom | src/Commands/AppSetupCommand.php:281-380 | the `foreach` over the fields from field i on, storing each accepted value under its key in `$data`. It stops at the first field that runs out of replies or hangs. The `CompletedForm*` lemmas state its meaning |
| AccountForm.RunFromPrefix | src/Commands/AppSetupCommand.php:281-380 | the fields are asked in declared order, each on the replies the earlier ones left. Running the form is running the first q fields, then, if they completed, the rest with the data and replies they left |
| AccountForm.CompletedFormStoresLast | src/Commands/AppSetupCommand.php:379 | `$data[$key] = $value` overwrites. In a completed form, the value under the key of the last field with that key is the value that field accepted, from the replies the fields before it left |
| AccountForm.AskAccountForm | src/Commands/AppSetupCommand.php:276-383 | the nested loops compute `RunFrom(fields, 0, map[], answers, valid)`: the fields in order, each retried until valid |
| AccountForm.ConfirmTakesFirstMatch | src/Commands/AppSetupCommand.php:307-323 | the confirmation ends on the first reply identical to the set match value. It reads every reply when the match is unset or never given |
| AccountForm.AcceptedIsValid | src/Commands/AppSetupCommand.php:366-377 | every accepted value passes the field's rules |
| AccountForm.PromptingFieldTakesFirstValid | src/Commands/AppSetupCommand.php:291-377 | a prompting field accepts exactly the first valid reply, runs out of replies when there is none, and never hangs |
| AccountForm.ConfirmWithoutMatchNeverEnds | src/Commands/AppSetupCommand.php:310-313 | a confirmation whose match value is not set is never accepted |
| AccountForm.ConfirmedEqualsMatch | src/Commands/AppSetupCommand.php:304-324 | an accepted confirmation equals the value it confirms, and that value was set |
| AccountForm.UnrecognizedFieldIsNull | src/Commands/AppSetupCommand.php:289-377 | an unrecognized type stores `null` at once when `null` passes, and otherwise hangs |
| AccountForm.CompletedFormKeys | src/Commands/AppSetupCommand.php:379-382 | a completed form's keys are exactly the fields' keys |
| AccountForm.CompletedFormKeeps | src/Commands/AppSetupCommand.php:379 | an entry no later field assigns keeps its value |
| AccountForm.CompletedFormValid | src/Commands/AppSetupCommand.php:366-379 | the value stored under a key passes the rules of the last field with that key. `CompletedFormStoresLast` says which value it is |
| AccountForm.CompletedConfirmationMatches | src/Commands/AppSetupCommand.php:304-379 | in a completed form, a confirmation holds the same value as its match key when later fields assign neither key |
| EnvPrompts.Resolve | src/Commands/AppSetupCommand.php:148-152 | a prompt returns the typed text, or its default when the default is accepted |
| EnvPrompts.DefaultPort | src/Commands/AppSetupCommand.php:189-193 | the port default is `3306` for `mysql` and `5432` for any other connection |
| EnvPrompts.Reasked | src/Commands/AppSetupCommand.php:229-255 | a retry keeps the connection |
| EnvPrompts.AskEnvValues | src/Commands/AppSetupCommand.php:145-273 | the prompts and the probe loop compute `EnvSetup(answers, probe)` |
| EnvPrompts.Settle | src/Commands/AppSetupCommand.php:215-256 | the probe loop: stop on credentials the probe accepts, otherwise re-ask five values and probe again. It gives out when the replies run out. `SettleSpec` and `SettleLastRound` state its meaning |
| EnvPrompts.EnvSetup | src/Commands/AppSetupCommand.php:145-273 | `askEnvValues`: the ten first-round prompts with their defaults, the probe loop, then the ten-key map. `CollectedSpec` and `CollectedLastRound` state its meaning |
| EnvPrompts.SettleSpec | src/Commands/AppSetupCommand.php:215-256 | the probe loop ends only on credentials the probe accepted, keeps the connection, and reads five replies per retry |
| EnvPrompts.SettleLastRound | src/Commands/AppSetupCommand.php:229-256 | the accepted credentials are the last ones entered: the starting ones when no retry happened, otherwise a retry answered with the last five replies read |
| EnvPrompts.EnvMapSpec | src/Commands/AppSetupCommand.php:261-272 | the returned map has exactly the ten keys, holding the values asked |
| EnvPrompts.CollectedSpec | src/Commands/AppSetupCommand.php:145-273 | a returned map has the ten keys and credentials the probe accepted. Its application settings and connection are the first round's replies |
| EnvPrompts.CollectedFromSettle | src/Commands/AppSetupCommand.php:215-272 | the returned `DB_*` entries are the credentials the probe loop settled on, and the replies left are the ones it left |
| EnvPrompts.SettleOnTail | src/Commands/AppSetupCommand.php:215-256 | the probe loop, run on the replies after a given point, settles on its starting credentials with no reply read, or on a retry answered with the last five replies it read |
| EnvPrompts.FirstRoundSettles | src/Commands/AppSetupCommand.php:175-256 | after the first round, the loop settles on the first round's credentials with no reply read, or on a retry answered with the last five replies read |
| EnvPrompts.CollectedLastRound | src/Commands/AppSetupCommand.php:229-272 | the returned `DB_HOST` … `DB_PASSWORD` are the last values entered: the first round's when the first probe succeeded, otherwise a retry answered with the five replies read just before the ones left over |
| EnvPrompts.FirstProbeAccepted | src/Commands/AppSetupCommand.php:215-222 | when the first probe succeeds, the first round's replies are returned and nothing more is read |
| EnvPrompts.AllDefaults | src/Commands/AppSetupCommand.php:148-211 | a reply stream that takes every default gives the prompts' default values, port `3306` and an empty password. The prompt-level `required` check is not modelled, so this includes the empty App Name and Database Name, which the prompts would refuse |
| EnvPrompts.RetryWithDefaultsClearsPassword | src/Commands/AppSetupCommand.php:229-255 | a retry answered with defaults keeps host, port, database and user, and clears the password |
| EnvPrompts.NoAppKey | src/Commands/AppSetupCommand.php:261-272 | `askEnvValues` never supplies `APP_KEY` |
| EnvPrompts.AppKeyLineKept | src/Commands/AppSetupCommand.php:131-133 | after `askEnvValues`, `updateEnv` writes every active `APP_KEY` line back unchanged |

## Left out

- Reading and writing `.env` is not modelled: `file(..., FILE_IGNORE_NEW_LINES)`, `file_put_contents` and `sleep(1)`. The rewrite takes the lines and yields the new lines; the `implode("\n")` that is written is `Strings.Join`, with the round trip `Strings.SplitJoin`.
- `replaceEnvWithExample`, the file copies and deletions in `handle`, and the `key:generate` call are file-system and Artisan effects outside the core.
- `checkDatabaseConnection` changes the runtime database configuration and opens a PDO connection. It is the `Probe` parameter.
- Console output is not modelled: info and error lines and the result tables.
- EnvPrompts.AllDefaults: states the run where every default is taken, including the empty defaults of the required App Name and Database Name prompts. The prompt library refuses those two, so the source never produces this run as stated.
- The Laravel Prompts renderers are not modelled: labels, the prompt-level `required` check, option lists, scrolling, placeholders and password masking. A prompt's return value is the next reply of the stream.
- What `multisearch` returns from the filtered options (keys or values) belongs to the prompt library. Only the options closure is modelled.
- The Laravel validation-rule language is the `valid` parameter.
- `createAdminAccount`, `AppInstallCommand`, the service provider, `PermissionsCheckerService` and the `install.php` configuration are outside the core.
- A field descriptor without `type`, `key`, `label`, `match` or `options` makes PHP raise "Undefined array key", and Laravel turns that into an exception. The model's `Field` always has these entries, and `label` is not kept because only the renderer reads it.
- The insertion order of PHP arrays is not modelled. The results of `check` and the form data are maps. A key assigned twice in the form keeps its first position in PHP.
- PhpVersion.CheckPhpVersion: requires the minimum to be absent, empty or numeric dotted. `version_compare`'s canonicalisation of other strings (`-dev`, `RC`, `pl` and the like) is not modelled.
- PhpVersion.VersionCompare: defined only for empty or numeric dotted versions, for the same reason.
- PhpVersion.StrToNat: `strtol` saturates at `LONG_MAX`, while the model's parts are unbounded.
- PhpVersion.CheckPhpVersion: when `PHP_VERSION` has no leading digit, the source reads a missing match element, which Laravel would raise as an error. The model reports `current` as `None` and the version as unsupported. `PHP_VERSION` always starts with a digit.
- Strings.StrIPos: folds ASCII case only, as `stripos` does since PHP 8.2. Multibyte case is not folded.
- Where the command would wait for more keyboard input, the model ends in `OutOfInput`. Where it loops without reading input, the model ends in `Hangs`.
