/**
  The script as it runs top to bottom: read `config.env`, look up the three
  credentials, and only then open the camera and run the monitoring loop.
 */
module ImposterAlarm {
  import opened Wrappers
  import opened EnvConfig
  import AlarmMonitor

  /** Building the dictionary from the classified lines, then looking up the credentials. */
  function Configure(ks: seq<LineKind>): Result<Credentials, ConfigError>
  {
    match Build(ks)
    case Failure(e) => Failure(ParseFailed(e))
    case Success(env) => RequireCredentials(env)
  }

  /** Reading the configuration file and looking up the credentials. */
  function Startup(configLines: seq<string>): Result<Credentials, ConfigError>
  {
    Configure(Kinds(configLines))
  }

  /**
    Startup succeeds exactly when every kept line has an `=` and each required
    key is set by some line.
   */
  lemma StartupSucceedsIff(ks: seq<LineKind>)
    ensures Configure(ks).Success? <==>
      && (forall i :: 0 <= i < |ks| ==> !ks[i].Malformed?)
      && forall key :: key in RequiredKeys ==> exists i :: SetsKey(ks, i, key)
  {
    FailsIff(ks);
    if Build(ks).Success? {
      ParsedKeys(ks);
      var env := Build(ks).value;
      assert Configure(ks) == RequireCredentials(env);
      assert (forall key :: key in RequiredKeys ==> key in env)
        <==> SenderKey in env && PasswordKey in env && ReceiverKey in env;
    }
  }

  /** Each credential is the value of the last line that sets its key. */
  lemma CredentialsFromLastLines(ks: seq<LineKind>)
    requires Configure(ks).Success?
    ensures var c := Configure(ks).value;
      forall i :: IsLastSetting(ks, i) ==>
        && (ks[i].key == SenderKey ==> c.senderEmail == ks[i].value)
        && (ks[i].key == PasswordKey ==> c.password == ks[i].value)
        && (ks[i].key == ReceiverKey ==> c.receiverEmail == ks[i].value)
  {
    LastValueWins(ks);
  }

  /** How a run of the program ends: at startup, or after the monitoring loop. */
  datatype Outcome =
    | StartupFailed(error: ConfigError)
    | Monitored(credentials: Credentials, trace: AlarmMonitor.Trace)

  /**
    The whole script: a configuration error stops it before the camera is
    opened and any frame is read; otherwise the monitoring loop runs.
   */
  method RunProgram(configLines: seq<string>, frames: seq<AlarmMonitor.Frame>) returns (outcome: Outcome)
    ensures outcome.StartupFailed? <==> Startup(configLines).Failure?
    ensures outcome.StartupFailed? ==> outcome.error == Startup(configLines).error
    ensures outcome.Monitored? ==>
      outcome.credentials == Startup(configLines).value && outcome.trace == AlarmMonitor.Run(frames)
  {
    var env := LoadEnvFile(configLines);
    if env.Failure? {
      return StartupFailed(ParseFailed(env.error));
    }
    var credentials := RequireCredentials(env.value);
    if credentials.Failure? {
      return StartupFailed(credentials.error);
    }
    var trace := AlarmMonitor.RunMonitor(frames);
    outcome := Monitored(credentials.value, trace);
  }
}
