/**
 * `AppSetupCommand::askEnvValues`: ten prompts for the `.env` settings, then
 * the database probe loop that re-asks the connection details until the
 * probe succeeds, and the ten-entry map handed to `updateEnv`.
 *
 * A prompt's reply is the next element of a finite answer stream: either the
 * prompt's default accepted as it is, or typed text. The probe
 * (`checkDatabaseConnection`) is a parameter that sees the attempt number as
 * well as the credentials, since a real server may come up between attempts.
 */
module EnvPrompts {
  import EnvMerge

  /** A reply to one prompt. */
  datatype Answer = Default | Typed(text: string)

  /** What a prompt with default `default` returns for `a`. */
  function Resolve(a: Answer, default: string): (r: string)
    ensures a.Typed? ==> r == a.text
    ensures a.Default? ==> r == default
  {
    match a
    case Default => default
    case Typed(text) => text
  }

  /** The `DB Port` default follows the connection chosen just before it. */
  function DefaultPort(connection: string): (port: string)
    ensures connection == "mysql" ==> port == "3306"
    ensures connection != "mysql" ==> port == "5432"
  {
    if connection == "mysql" then "3306" else "5432"
  }

  /** The arguments of `checkDatabaseConnection`. */
  datatype DbCredentials = DbCredentials(connection: string, host: string, port: string, database: string, username: string, password: string)

  /** `checkDatabaseConnection` on its `attempt`-th call (from 0). */
  type Probe = (nat, DbCredentials) -> bool

  /** The replies the first round of prompts reads, and the ones each retry reads. */
  const FirstRound: nat := 10
  const Retry: nat := 5

  /** The first round, prompts 5 to 9: connection, host, port, database, user; the password prompt has no default. */
  function FirstCredentials(answers: seq<Answer>): DbCredentials
    requires |answers| >= FirstRound
  {
    var connection := Resolve(answers[4], "mysql");
    DbCredentials(connection, Resolve(answers[5], "127.0.0.1"), Resolve(answers[6], DefaultPort(connection)),
      Resolve(answers[7], ""), Resolve(answers[8], "root"), Resolve(answers[9], ""))
  }

  /** One retry: host, port, database and user default to the previous values; the connection is not asked again. */
  function Reasked(previous: DbCredentials, answers: seq<Answer>): (c: DbCredentials)
    requires |answers| >= Retry
    ensures c.connection == previous.connection
  {
    DbCredentials(previous.connection, Resolve(answers[0], previous.host), Resolve(answers[1], previous.port),
      Resolve(answers[2], previous.database), Resolve(answers[3], previous.username), Resolve(answers[4], ""))
  }

  /** Where the probe loop ends: the accepted credentials, their attempt number and the replies left. */
  datatype Settled = Connected(credentials: DbCredentials, attempt: nat, rest: seq<Answer>) | GaveOut

  /** The probe loop from attempt `attempt` with credentials `c`. */
  function Settle(c: DbCredentials, attempt: nat, input: seq<Answer>, probe: Probe): Settled
    decreases |input|
  {
    if probe(attempt, c) then Connected(c, attempt, input)
    else if |input| < Retry then GaveOut
    else Settle(Reasked(c, input[..Retry]), attempt + 1, input[Retry..], probe)
  }

  /** The array `askEnvValues` returns. */
  function EnvMap(appName: string, appEnv: string, appDebug: string, appUrl: string, c: DbCredentials): map<string, string> {
    map[
      "APP_NAME" := appName, "APP_ENV" := appEnv, "APP_DEBUG" := appDebug, "APP_URL" := appUrl,
      "DB_CONNECTION" := c.connection, "DB_HOST" := c.host, "DB_PORT" := c.port,
      "DB_DATABASE" := c.database, "DB_USERNAME" := c.username, "DB_PASSWORD" := c.password]
  }

  /** The credentials a result map holds. */
  function CredentialsOf(values: map<string, string>): DbCredentials
    requires forall k :: k in TenKeys ==> k in values
  {
    DbCredentials(values["DB_CONNECTION"], values["DB_HOST"], values["DB_PORT"],
      values["DB_DATABASE"], values["DB_USERNAME"], values["DB_PASSWORD"])
  }

  const TenKeys: set<string> := {"APP_NAME", "APP_ENV", "APP_DEBUG", "APP_URL", "DB_CONNECTION",
    "DB_HOST", "DB_PORT", "DB_DATABASE", "DB_USERNAME", "DB_PASSWORD"}

  datatype EnvOutcome = Collected(values: map<string, string>, rest: seq<Answer>) | EnvOutOfInput

  /** What `askEnvValues` returns for the replies `answers`. */
  function EnvSetup(answers: seq<Answer>, probe: Probe): EnvOutcome {
    if |answers| < FirstRound then EnvOutOfInput
    else match Settle(FirstCredentials(answers), 0, answers[FirstRound..], probe)
      case GaveOut => EnvOutOfInput
      case Connected(c, _, rest) =>
        Collected(EnvMap(Resolve(answers[0], ""), Resolve(answers[1], "local"), Resolve(answers[2], "true"),
          Resolve(answers[3], "https://"), c), rest)
  }

  /** `askEnvValues()`. */
  method AskEnvValues(answers: seq<Answer>, probe: Probe) returns (outcome: EnvOutcome)
    ensures outcome == EnvSetup(answers, probe)
  {
    if |answers| < FirstRound {
      return EnvOutOfInput;
    }
    var appName := Resolve(answers[0], "");
    var appEnv := Resolve(answers[1], "local");
    var appDebug := Resolve(answers[2], "true");
    var appUrl := Resolve(answers[3], "https://");
    var dbConnection := Resolve(answers[4], "mysql");
    var dbHost := Resolve(answers[5], "127.0.0.1");
    var dbPort := Resolve(answers[6], DefaultPort(dbConnection));
    var dbName := Resolve(answers[7], "");
    var dbUser := Resolve(answers[8], "root");
    var dbPassword := Resolve(answers[9], "");
    var input := answers[FirstRound..];
    var attempt := 0;
    while !probe(attempt, DbCredentials(dbConnection, dbHost, dbPort, dbName, dbUser, dbPassword))
      invariant Settle(FirstCredentials(answers), 0, answers[FirstRound..], probe)
        == Settle(DbCredentials(dbConnection, dbHost, dbPort, dbName, dbUser, dbPassword), attempt, input, probe)
      decreases |input|
    {
      if |input| < Retry {
        return EnvOutOfInput;
      }
      dbHost := Resolve(input[0], dbHost);
      dbPort := Resolve(input[1], dbPort);
      dbName := Resolve(input[2], dbName);
      dbUser := Resolve(input[3], dbUser);
      dbPassword := Resolve(input[4], "");
      input := input[Retry..];
      attempt := attempt + 1;
    }
    outcome := Collected(EnvMap(appName, appEnv, appDebug, appUrl,
      DbCredentials(dbConnection, dbHost, dbPort, dbName, dbUser, dbPassword)), input);
  }

  // ---------------------------------------------------------------------------
  // Properties
  // ---------------------------------------------------------------------------

  /**
   * The probe loop ends on credentials the probe accepted, after some number
   * of retries that each read five replies, and the connection is the one
   * it started with.
   */
  lemma {:induction false} SettleSpec(c: DbCredentials, attempt: nat, input: seq<Answer>, probe: Probe)
    ensures Settle(c, attempt, input, probe).Connected? ==>
      var s := Settle(c, attempt, input, probe);
      && probe(s.attempt, s.credentials)
      && s.credentials.connection == c.connection
      && attempt <= s.attempt
      && |input| == Retry * (s.attempt - attempt) + |s.rest|
      && s.rest == input[|input| - |s.rest|..]
    decreases |input|
  {
    if !probe(attempt, c) && |input| >= Retry {
      SettleSpec(Reasked(c, input[..Retry]), attempt + 1, input[Retry..], probe);
      var s := Settle(c, attempt, input, probe);
      if s.Connected? {
        assert input[Retry..][|input[Retry..]| - |s.rest|..] == input[|input| - |s.rest|..];
      }
    }
  }

  /** The five replies read last before the replies `rest` that are left. */
  function LastRound(input: seq<Answer>, rest: nat): seq<Answer>
    requires rest + Retry <= |input|
  {
    input[|input| - rest - Retry..|input| - rest]
  }

  /** `credentials` are what a retry answered with `replies` gives, whatever the previous credentials were. */
  ghost predicate RetriedFrom(credentials: DbCredentials, replies: seq<Answer>)
    requires |replies| >= Retry
  {
    exists previous :: credentials == Reasked(previous, replies)
  }

  /** Dropping replies from the front leaves the last round before `rest` where it was. */
  lemma LastRoundShift(input: seq<Answer>, drop: nat, rest: nat)
    requires drop + rest <= |input|
    ensures rest + Retry == |input| ==> LastRound(input, rest) == input[..Retry]
    ensures rest + Retry <= |input| - drop ==> LastRound(input[drop..], rest) == LastRound(input, rest)
  {
  }

  /**
   * The credentials the probe loop settles on are the last ones entered: the
   * starting ones when no retry happened, and otherwise a retry built from the
   * last five replies read.
   */
  lemma {:induction false} SettleLastRound(c: DbCredentials, attempt: nat, input: seq<Answer>, probe: Probe)
    requires Settle(c, attempt, input, probe).Connected?
    ensures var s := Settle(c, attempt, input, probe);
      && |s.rest| <= |input|
      && (s.attempt == attempt ==> s.credentials == c && s.rest == input)
      && (s.attempt != attempt ==>
            |s.rest| + Retry <= |input| && RetriedFrom(s.credentials, LastRound(input, |s.rest|)))
    decreases |input|
  {
    if probe(attempt, c) {
      assert Settle(c, attempt, input, probe) == Connected(c, attempt, input);
    } else {
      assert |input| >= Retry;
      var tail := input[Retry..];
      var next := Reasked(c, input[..Retry]);
      SettleLastRound(next, attempt + 1, tail, probe);
      SettleSpec(next, attempt + 1, tail, probe);
      var s := Settle(next, attempt + 1, tail, probe);
      assert Settle(c, attempt, input, probe) == s;
      LastRoundShift(input, Retry, |s.rest|);
      if s.attempt == attempt + 1 {
        assert s.credentials == Reasked(c, LastRound(input, |s.rest|));
      }
    }
  }

  lemma EnvMapSpec(appName: string, appEnv: string, appDebug: string, appUrl: string, c: DbCredentials)
    ensures var values := EnvMap(appName, appEnv, appDebug, appUrl, c);
      && values.Keys == TenKeys
      && CredentialsOf(values) == c
      && values["APP_NAME"] == appName && values["APP_ENV"] == appEnv
      && values["APP_DEBUG"] == appDebug && values["APP_URL"] == appUrl
  {
  }

  /**
   * The map `askEnvValues` returns has exactly the ten keys, its database
   * credentials are ones the probe accepted, and the application settings
   * and connection are the first round's replies.
   */
  lemma CollectedSpec(answers: seq<Answer>, probe: Probe)
    ensures EnvSetup(answers, probe).Collected? ==>
      var values := EnvSetup(answers, probe).values;
      && values.Keys == TenKeys
      && (exists attempt :: probe(attempt, CredentialsOf(values)))
      && values["APP_NAME"] == Resolve(answers[0], "")
      && values["APP_ENV"] == Resolve(answers[1], "local")
      && values["APP_DEBUG"] == Resolve(answers[2], "true")
      && values["APP_URL"] == Resolve(answers[3], "https://")
      && values["DB_CONNECTION"] == Resolve(answers[4], "mysql")
  {
    if |answers| >= FirstRound {
      var c := FirstCredentials(answers);
      SettleSpec(c, 0, answers[FirstRound..], probe);
      var s := Settle(c, 0, answers[FirstRound..], probe);
      if s.Connected? {
        EnvMapSpec(Resolve(answers[0], ""), Resolve(answers[1], "local"), Resolve(answers[2], "true"),
          Resolve(answers[3], "https://"), s.credentials);
      }
    }
  }

  /** A collected map holds the credentials the probe loop settled on, and the replies it left. */
  lemma CollectedFromSettle(answers: seq<Answer>, probe: Probe)
    requires EnvSetup(answers, probe).Collected?
    ensures |answers| >= FirstRound
    ensures forall k :: k in TenKeys ==> k in EnvSetup(answers, probe).values
    ensures var s := Settle(FirstCredentials(answers), 0, answers[FirstRound..], probe);
      && s.Connected?
      && CredentialsOf(EnvSetup(answers, probe).values) == s.credentials
      && EnvSetup(answers, probe).rest == s.rest
  {
    var s := Settle(FirstCredentials(answers), 0, answers[FirstRound..], probe);
    EnvMapSpec(Resolve(answers[0], ""), Resolve(answers[1], "local"), Resolve(answers[2], "true"),
      Resolve(answers[3], "https://"), s.credentials);
  }

  /** The probe loop run on the replies after the first `from` settles on `c` or on the last retry's credentials. */
  lemma SettleOnTail(c: DbCredentials, answers: seq<Answer>, from: nat, probe: Probe)
    requires from <= |answers|
    requires Settle(c, 0, answers[from..], probe).Connected?
    ensures var s := Settle(c, 0, answers[from..], probe);
      && from + |s.rest| <= |answers|
      && ((s.credentials == c && s.rest == answers[from..])
          || (from + |s.rest| + Retry <= |answers| && RetriedFrom(s.credentials, LastRound(answers, |s.rest|))))
  {
    var input := answers[from..];
    var s := Settle(c, 0, input, probe);
    SettleLastRound(c, 0, input, probe);
    LastRoundShift(answers, from, |s.rest|);
  }

  /** The probe loop after the first round settles on the first round's credentials or on the last retry's. */
  lemma FirstRoundSettles(answers: seq<Answer>, probe: Probe)
    requires |answers| >= FirstRound
    requires Settle(FirstCredentials(answers), 0, answers[FirstRound..], probe).Connected?
    ensures var s := Settle(FirstCredentials(answers), 0, answers[FirstRound..], probe);
      && FirstRound + |s.rest| <= |answers|
      && ((s.credentials == FirstCredentials(answers) && s.rest == answers[FirstRound..])
          || (FirstRound + |s.rest| + Retry <= |answers| && RetriedFrom(s.credentials, LastRound(answers, |s.rest|))))
  {
    SettleOnTail(FirstCredentials(answers), answers, FirstRound, probe);
  }

  /**
   * The map `askEnvValues` returns holds the credentials entered last: the
   * first round's when the first probe succeeded, and otherwise a retry
   * answered with the five replies read just before the ones left over.
   */
  lemma CollectedLastRound(answers: seq<Answer>, probe: Probe, values: map<string, string>, rest: seq<Answer>)
    requires EnvSetup(answers, probe) == Collected(values, rest)
    ensures FirstRound + |rest| <= |answers|
    ensures forall k :: k in TenKeys ==> k in values
    ensures (CredentialsOf(values) == FirstCredentials(answers) && rest == answers[FirstRound..])
      || (FirstRound + |rest| + Retry <= |answers| && RetriedFrom(CredentialsOf(values), LastRound(answers, |rest|)))
  {
    CollectedFromSettle(answers, probe);
    FirstRoundSettles(answers, probe);
  }

  /** When the first probe succeeds, the first round's replies are what is returned and nothing more is read. */
  lemma FirstProbeAccepted(answers: seq<Answer>, probe: Probe)
    requires |answers| >= FirstRound
    requires probe(0, FirstCredentials(answers))
    ensures EnvSetup(answers, probe).Collected?
    ensures EnvSetup(answers, probe).rest == answers[FirstRound..]
    ensures CredentialsOf(EnvSetup(answers, probe).values) == FirstCredentials(answers)
  {
  }

  /**
   * A reply stream that takes every default, with a successful first probe,
   * gives the prompts' default values. The prompt library's own `required`
   * check, which refuses the empty App Name and Database Name, is not part of
   * the model.
   */
  lemma AllDefaults(probe: Probe)
    requires probe(0, DbCredentials("mysql", "127.0.0.1", "3306", "", "root", ""))
    ensures var answers := seq(FirstRound, _ => Default);
      EnvSetup(answers, probe) == Collected(map[
        "APP_NAME" := "", "APP_ENV" := "local", "APP_DEBUG" := "true", "APP_URL" := "https://",
        "DB_CONNECTION" := "mysql", "DB_HOST" := "127.0.0.1", "DB_PORT" := "3306",
        "DB_DATABASE" := "", "DB_USERNAME" := "root", "DB_PASSWORD" := ""], [])
  {
    var answers := seq(FirstRound, _ => Default);
    assert FirstCredentials(answers) == DbCredentials("mysql", "127.0.0.1", "3306", "", "root", "");
  }

  /** A retry answered with defaults keeps host, port, database and user, and clears the password. */
  lemma RetryWithDefaultsClearsPassword(previous: DbCredentials, answers: seq<Answer>)
    requires |answers| >= Retry
    requires forall k :: 0 <= k < Retry ==> answers[k] == Default
    ensures Reasked(previous, answers) == previous.(password := "")
  {
  }

  /** `askEnvValues` never supplies `APP_KEY`. */
  lemma NoAppKey(answers: seq<Answer>, probe: Probe)
    requires EnvSetup(answers, probe).Collected?
    ensures "APP_KEY" !in EnvSetup(answers, probe).values
  {
    CollectedSpec(answers, probe);
  }

  /** Input line `i` comes out of `updateEnv` unchanged, at the position its rewrite starts. */
  predicate WrittenAsIs(lines: seq<string>, overlay: EnvMerge.Overlay, i: nat)
    requires i < |lines|
  {
    EnvMerge.Offset(lines, overlay, i) < |EnvMerge.Rewritten(lines, overlay)|
    && EnvMerge.Rewritten(lines, overlay)[EnvMerge.Offset(lines, overlay, i)] == lines[i]
  }

  /** So `updateEnv` writes every active `APP_KEY=...` line of the file back as it was. */
  lemma AppKeyLineKept(answers: seq<Answer>, probe: Probe, lines: seq<string>, i: nat)
    requires EnvSetup(answers, probe).Collected?
    requires i < |lines| && EnvMerge.Classify(lines[i]) == EnvMerge.Active("APP_KEY")
    ensures WrittenAsIs(lines, EnvSetup(answers, probe).values, i)
  {
    NoAppKey(answers, probe);
    EnvMerge.ActiveReplaced(lines, EnvSetup(answers, probe).values, i);
  }
}
