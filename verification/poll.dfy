/** The polling loop of both entry points: fetch the feed, and when a
    message arrives transform it and send it, ending the monitoring
    transaction with `success`; otherwise end it with `failure`. Then
    sleep and start over. The HTTP exchange and the protobuf decoding are
    given as a Network outcome; the loop is run over a finite list of
    rounds. */
module PollLoop {
  import opened Wrappers
  import opened PyData
  import Transform
  import Bulk
  import AppConfig
  import ConfigLoader
  import Required

  /** What the HTTP exchange of one round yields: a response whose body
      `ParseFromString` either accepts (and MessageToDict turns into the
      list of entities) or rejects, or a `requests` exception. */
  datatype Network = Response(feed: Option<seq<Value>>) | RequestFailed

  /** The result of `query_wmata_api`: a message, `None`, or an exception
      escaping it. */
  datatype Fetch = Fetched(entities: seq<Value>) | NoMessage | FetchRaised(error: Exception)

  /** `query_wmata_api` of app/app.py as written: its `except` branch calls
      `apm_client.capture_exception()`, but `apm_client` is local to
      `main()`, so the branch raises NameError; a body the protobuf parser
      rejects raises DecodeError, which is not caught. */
  function QueryAsWrittenApp(net: Network): (r: Fetch)
    ensures r.Fetched? <==> net.Response? && net.feed.Some?
    ensures net.RequestFailed? ==> r == FetchRaised(NameError("apm_client"))
    ensures net == Response(None) ==> r == FetchRaised(DecodeError)
  {
    match net
    case RequestFailed => FetchRaised(NameError("apm_client"))
    case Response(None) => FetchRaised(DecodeError)
    case Response(Some(entities)) => Fetched(entities)
  }

  /** `query_wmata_api` of main.py as written: a request exception gives
      `None`, a parse error escapes. */
  function QueryAsWrittenMain(net: Network): (r: Fetch)
    ensures r.Fetched? <==> net.Response? && net.feed.Some?
    ensures net.RequestFailed? ==> r == NoMessage
    ensures net == Response(None) ==> r == FetchRaised(DecodeError)
  {
    match net
    case RequestFailed => NoMessage
    case Response(None) => FetchRaised(DecodeError)
    case Response(Some(entities)) => Fetched(entities)
  }

  /** `query_wmata_api` as its documentation describes it: errors during the
      request or the parsing are logged and give `None`; nothing escapes. */
  function Query(net: Network): (r: Fetch)
    ensures !r.FetchRaised?
    ensures r.Fetched? <==> net.Response? && net.feed.Some?
    ensures r.Fetched? ==> r.entities == net.feed.value
  {
    match net
    case Response(Some(entities)) => Fetched(entities)
    case _ => NoMessage
  }

  /** Both functions as written agree with the documented one except where
      they raise. */
  lemma QueryAsWrittenAgrees(net: Network)
    ensures QueryAsWrittenApp(net).FetchRaised? || QueryAsWrittenApp(net) == Query(net)
    ensures QueryAsWrittenMain(net).FetchRaised? || QueryAsWrittenMain(net) == Query(net)
    ensures QueryAsWrittenApp(net).FetchRaised? <==> !Query(net).Fetched?
    ensures QueryAsWrittenMain(net).FetchRaised? <==> net == Response(None)
  {
  }

  /** The inputs on which the functions as written break their documented
      promise: a failed request in app/app.py, an unparsable body in both. */
  lemma QueryAsWrittenRaises()
    ensures QueryAsWrittenApp(RequestFailed) == FetchRaised(NameError("apm_client"))
    ensures QueryAsWrittenApp(Response(None)) == FetchRaised(DecodeError)
    ensures QueryAsWrittenMain(Response(None)) == FetchRaised(DecodeError)
    ensures Query(RequestFailed) == NoMessage && Query(Response(None)) == NoMessage
  {
  }

  /** The two phases an iteration can run after fetching. */
  datatype Phase = FormatPhase | SendPhase

  /** The `result` the monitoring transaction is ended with. */
  datatype Ending = EndSuccess | EndFailure

  /** One pass through the loop body up to the sleep: it either ends the
      transaction, or an exception escapes and ends the program. `phases`
      lists the phases that ran. */
  datatype Iteration =
    | Ended(ending: Ending, phases: seq<Phase>, store: Bulk.Store, report: Option<Bulk.SendReport>)
    | Crashed(error: Exception, phases: seq<Phase>)

  /** `if raw_data:` — a FeedMessage is always truthy, so the test is
      whether a message came back at all. */
  function Step(variant: Transform.Variant, fetch: Fetch, store: Bulk.Store, link: Bulk.Link,
                fingerprint: Transform.Fingerprint, indexName: Value): (r: Iteration)
    ensures fetch.FetchRaised? ==> r == Crashed(fetch.error, [])
    ensures (r.Ended? && r.ending == EndFailure) <==> fetch.NoMessage?
    ensures r.Ended? && r.ending == EndFailure ==> r.phases == [] && r.store == store && r.report.None?
    ensures r.Ended? && r.ending == EndSuccess ==> fetch.Fetched? && r.phases == [FormatPhase, SendPhase]
    ensures r.Ended? ==> forall k :: k in store ==> k in r.store && r.store[k] == store[k]
  {
    match fetch
    case FetchRaised(e) => Crashed(e, [])
    case NoMessage => Ended(EndFailure, [], store, None)
    case Fetched(entities) =>
      match Transform.FormatData(variant, entities, fingerprint)
      case Failure(e) => Crashed(e, [FormatPhase])
      case Success(docs) =>
        match Bulk.SendToElasticsearch(store, docs, indexName, link)
        case Failure(e) => Crashed(e, [FormatPhase, SendPhase])
        case Success(report) => Ended(EndSuccess, [FormatPhase, SendPhase], report.store, Some(report))
  }

  /** The outcome rule: an iteration ends with `success` exactly when a
      message was fetched, every entity was transformed and sending did
      not raise. Rejected documents and a caught Connection, Transport or
      Request error do not change that; only a fault outside those three
      does. */
  lemma StepSucceeds(variant: Transform.Variant, fetch: Fetch, store: Bulk.Store, link: Bulk.Link,
                     fingerprint: Transform.Fingerprint, indexName: Value)
    ensures var r := Step(variant, fetch, store, link, fingerprint, indexName);
      (r.Ended? && r.ending == EndSuccess) <==>
        && fetch.Fetched?
        && (forall i :: 0 <= i < |fetch.entities| ==> Transform.Transformable(variant, fetch.entities[i]))
        && !(link.DropsAfter? && link.sent < |fetch.entities| && !Bulk.Caught(link.fault))
  {
    if fetch.Fetched? {
      var formatted := Transform.FormatData(variant, fetch.entities, fingerprint);
      if formatted.Success? {
        Bulk.GeneratorAcceptsFormattedData(variant, fetch.entities, fingerprint, indexName);
        var sent := Bulk.SendToElasticsearch(store, formatted.value, indexName, link);
        assert |formatted.value| == |fetch.entities|;
        assert Step(variant, fetch, store, link, fingerprint, indexName)
            == if sent.Success? then Ended(EndSuccess, [FormatPhase, SendPhase], sent.value.store, Some(sent.value))
               else Crashed(sent.error, [FormatPhase, SendPhase]);
      }
    }
  }

  /** Whenever a message is fetched and transformed and the link stays up
      or breaks with one of the caught faults, the iteration is a
      `success`, however many documents the cluster rejected. */
  lemma SuccessDespiteRejections(variant: Transform.Variant, entities: seq<Value>, store: Bulk.Store, link: Bulk.Link,
                                 fingerprint: Transform.Fingerprint, indexName: Value)
    requires forall i :: 0 <= i < |entities| ==> Transform.Transformable(variant, entities[i])
    requires link.Up? || Bulk.Caught(link.fault)
    ensures var r := Step(variant, Fetched(entities), store, link, fingerprint, indexName);
      r.Ended? && r.ending == EndSuccess && r.report.Some?
  {
    StepSucceeds(variant, Fetched(entities), store, link, fingerprint, indexName);
  }

  /** Which `query_wmata_api` a run calls. */
  datatype QueryVersion = AppAsWritten | MainAsWritten | Documented

  /** The query of the given version. All three hand back the entities of
      a response the parser accepts. */
  function QueryBy(version: QueryVersion, net: Network): (r: Fetch)
    ensures r.Fetched? <==> net.Response? && net.feed.Some?
    ensures r.Fetched? ==> r.entities == net.feed.value
    ensures version.Documented? ==> !r.FetchRaised?
  {
    match version
    case AppAsWritten => QueryAsWrittenApp(net)
    case MainAsWritten => QueryAsWrittenMain(net)
    case Documented => Query(net)
  }

  /** What the world does in one round: the outcome of the HTTP exchange
      and the state of the link to the cluster while sending. */
  datatype Round = Round(net: Network, link: Bulk.Link)

  /** What stays fixed from one iteration to the next: the transformation
      and the query that run, the outcome of the configuration reads each
      iteration performs before querying (`Fail` carries the exception the
      first failing read raises), the value the sleep duration expression
      evaluates to after each iteration, and the index name. */
  datatype Setup = Setup(variant: Transform.Variant, version: QueryVersion, lookups: Outcome<Exception>,
                         sleep: Result<int, Exception>, indexName: Value)

  /** A finite prefix of the `while True` loop: how each completed
      iteration ended, the seconds slept after each, the cluster at the
      end, and the exception that stopped the program, if one did. */
  datatype Run = Run(endings: seq<Ending>, sleeps: seq<int>, store: Bulk.Store, stop: Option<Exception>)

  /** The iteration the loop runs first, once the configuration reads have
      passed. */
  function FirstStep(setup: Setup, rounds: seq<Round>, store: Bulk.Store, fingerprint: Transform.Fingerprint): (r: Iteration)
    requires |rounds| > 0
    ensures (r.Ended? && r.ending == EndFailure) <==> QueryBy(setup.version, rounds[0].net).NoMessage?
  {
    Step(setup.variant, QueryBy(setup.version, rounds[0].net), store, rounds[0].link, fingerprint, setup.indexName)
  }

  /** The largest number of seconds `time.sleep` accepts: it converts the
      duration to a signed 64-bit count of nanoseconds first. */
  const MaxSleepSeconds: int := 9223372036

  /** `time.sleep(d)` on an int: a duration whose nanosecond count does not
      fit in 64 bits raises OverflowError, whatever its sign; only then is a
      negative one rejected with ValueError. */
  function TimeSleep(d: int): (r: Outcome<Exception>)
    ensures r.Pass? <==> 0 <= d && d * 1_000_000_000 < 0x8000_0000_0000_0000
    ensures r.Fail? && r.error == OverflowError <==>
      !(-0x8000_0000_0000_0000 <= d * 1_000_000_000 < 0x8000_0000_0000_0000)
    ensures r.Fail? ==> r.error == OverflowError || r.error == ValueError
  {
    if d < -MaxSleepSeconds || d > MaxSleepSeconds then Fail(OverflowError)
    else if d < 0 then Fail(ValueError)
    else Pass
  }

  /** The boundaries of `time.sleep`, and the duration of ten billion
      seconds that overflows. */
  lemma TimeSleepLimits()
    ensures TimeSleep(MaxSleepSeconds) == Pass && TimeSleep(0) == Pass
    ensures TimeSleep(MaxSleepSeconds + 1) == Fail(OverflowError)
    ensures TimeSleep(10_000_000_000) == Fail(OverflowError)
    ensures TimeSleep(-1) == Fail(ValueError) && TimeSleep(-MaxSleepSeconds) == Fail(ValueError)
    ensures TimeSleep(-MaxSleepSeconds - 1) == Fail(OverflowError)
  {
  }

  /** The loop over `rounds`; each completed iteration is followed by
      `time.sleep` of the evaluated duration. */
  function Loop(setup: Setup, rounds: seq<Round>, store: Bulk.Store, fingerprint: Transform.Fingerprint): (r: Run)
    ensures |r.sleeps| <= |r.endings| <= |rounds|
    ensures forall d :: d in r.sleeps ==> setup.sleep == Success(d) && TimeSleep(d).Pass?
    ensures r.stop.None? ==> |r.endings| == |rounds| && |r.sleeps| == |rounds|
    ensures r.stop.Some? ==> |rounds| > 0
    ensures setup.lookups.Fail? && |rounds| > 0 ==> r == Run([], [], store, Some(setup.lookups.error))
    decreases |rounds|
  {
    if |rounds| == 0 then Run([], [], store, None)
    else if setup.lookups.Fail? then Run([], [], store, Some(setup.lookups.error))
    else
      var step := FirstStep(setup, rounds, store, fingerprint);
      if step.Crashed? then Run([], [], store, Some(step.error))
      else if setup.sleep.Failure? then Run([step.ending], [], step.store, Some(setup.sleep.error))
      else if TimeSleep(setup.sleep.value).Fail? then
        Run([step.ending], [], step.store, Some(TimeSleep(setup.sleep.value).error))
      else
        var rest := Loop(setup, rounds[1..], step.store, fingerprint);
        Run([step.ending] + rest.endings, [setup.sleep.value] + rest.sleeps, rest.store, rest.stop)
  }

  /** A first iteration that ends and a duration that sleeps: the loop
      records the ending and carries on with the rest of the rounds. */
  lemma LoopContinues(setup: Setup, rounds: seq<Round>, store: Bulk.Store, fingerprint: Transform.Fingerprint)
    requires |rounds| > 0 && setup.lookups.Pass?
    requires FirstStep(setup, rounds, store, fingerprint).Ended?
    requires setup.sleep.Success? && TimeSleep(setup.sleep.value).Pass?
    ensures var step := FirstStep(setup, rounds, store, fingerprint);
      var rest := Loop(setup, rounds[1..], step.store, fingerprint);
      Loop(setup, rounds, store, fingerprint)
        == Run([step.ending] + rest.endings, [setup.sleep.value] + rest.sleeps, rest.store, rest.stop)
  {
  }

  /** Documents already in the cluster are never altered or removed by the
      loop: the bulk requests only ever `create`. */
  lemma {:induction false} LoopKeepsStored(setup: Setup, rounds: seq<Round>, store: Bulk.Store,
                                           fingerprint: Transform.Fingerprint)
    ensures var r := Loop(setup, rounds, store, fingerprint);
      forall k :: k in store ==> k in r.store && r.store[k] == store[k]
    decreases |rounds|
  {
    if |rounds| > 0 && setup.lookups.Pass? {
      var step := FirstStep(setup, rounds, store, fingerprint);
      if step.Ended? && setup.sleep.Success? && TimeSleep(setup.sleep.value).Pass? {
        LoopKeepsStored(setup, rounds[1..], step.store, fingerprint);
        LoopContinues(setup, rounds, store, fingerprint);
      }
    }
  }

  /** Endings that match their rounds one by one still do after one more
      matching ending is put in front. */
  lemma EndingsMatchCons(version: QueryVersion, rounds: seq<Round>, first: Ending, rest: seq<Ending>)
    requires 0 < |rounds| && |rest| < |rounds|
    requires first == EndFailure <==> QueryBy(version, rounds[0].net).NoMessage?
    requires forall i :: 0 <= i < |rest| ==> (rest[i] == EndFailure <==> QueryBy(version, rounds[1..][i].net).NoMessage?)
    ensures forall i :: 0 <= i < |[first] + rest| ==>
      (([first] + rest)[i] == EndFailure <==> QueryBy(version, rounds[i].net).NoMessage?)
  {
    forall i | 0 <= i < |[first] + rest|
      ensures ([first] + rest)[i] == EndFailure <==> QueryBy(version, rounds[i].net).NoMessage?
    {
      if i > 0 {
        assert rounds[i] == rounds[1..][i - 1];
      }
    }
  }

  /** Every completed iteration ends in failure exactly when its query
      returned `None`. */
  lemma {:induction false} LoopEndings(setup: Setup, rounds: seq<Round>, store: Bulk.Store,
                                       fingerprint: Transform.Fingerprint)
    ensures var r := Loop(setup, rounds, store, fingerprint);
      forall i :: 0 <= i < |r.endings| ==>
        (r.endings[i] == EndFailure <==> QueryBy(setup.version, rounds[i].net).NoMessage?)
    decreases |rounds|
  {
    if |rounds| > 0 && setup.lookups.Pass? {
      var step := FirstStep(setup, rounds, store, fingerprint);
      if step.Ended? && setup.sleep.Success? && TimeSleep(setup.sleep.value).Pass? {
        var rest := Loop(setup, rounds[1..], step.store, fingerprint);
        LoopEndings(setup, rounds[1..], step.store, fingerprint);
        EndingsMatchCons(setup.version, rounds, step.ending, rest.endings);
        LoopContinues(setup, rounds, store, fingerprint);
      }
    }
  }

  /** main.py: the URL, the key, `SLEEP_DURATION = int(...)` and
      `INDEX_NAME` are read once, before the loop (`loader.get` does not
      raise); a duration `int` rejects stops the program before the first
      iteration. */
  function MainRun(loader: ConfigLoader.Loader, rounds: seq<Round>, store: Bulk.Store,
                   fingerprint: Transform.Fingerprint): (r: Run)
    ensures IntOf(ConfigLoader.Setting(loader, "SLEEP_DURATION")).Failure? ==>
      r == Run([], [], store, Some(IntOf(ConfigLoader.Setting(loader, "SLEEP_DURATION")).error))
    ensures forall d :: d in r.sleeps ==> IntOf(ConfigLoader.Setting(loader, "SLEEP_DURATION")) == Success(d)
  {
    var duration := IntOf(ConfigLoader.Setting(loader, "SLEEP_DURATION"));
    if duration.Failure? then Run([], [], store, Some(duration.error))
    else Loop(Setup(Transform.MainVariant, MainAsWritten, Pass, duration, ConfigLoader.Setting(loader, "INDEX_NAME")),
              rounds, store, fingerprint)
  }

  /** The two reads that precede each query in app/app.py, in order: the
      URL, then the key. */
  function Reads(url: Result<Value, Exception>, key: Result<Value, Exception>): (r: Outcome<Exception>)
    ensures r.Pass? <==> url.Success? && key.Success?
    ensures url.Failure? ==> r == Fail(url.error)
    ensures url.Success? && key.Failure? ==> r == Fail(key.error)
  {
    if url.Failure? then Fail(url.error)
    else if key.Failure? then Fail(key.error)
    else Pass
  }

  /** The loop setup of app/app.py, with the URL read `url` and the
      given query. Start-up validation makes the SETTINGS reads succeed. */
  function AppSetup(cfg: AppConfig.Config, version: QueryVersion, url: Result<Value, Exception>): (setup: Setup)
    requires AppConfig.ValidateStartup(cfg).Valid?
    ensures setup.lookups == Reads(url, AppConfig.Lookup(cfg, "SECRETS", "WMATA_API_KEY"))
    ensures setup.version == version
    ensures setup.sleep == IntOf(AppConfig.Lookup(cfg, "SETTINGS", "SLEEP_DURATION").value)
  {
    assert "SLEEP_DURATION" in Required.Settings && "INDEX_NAME" in Required.Settings;
    AppConfig.ValidatedKeysReadable(cfg, Required.Settings, "SETTINGS", "SLEEP_DURATION");
    AppConfig.ValidatedKeysReadable(cfg, Required.Settings, "SETTINGS", "INDEX_NAME");
    Setup(Transform.AppVariant, version, Reads(url, AppConfig.Lookup(cfg, "SECRETS", "WMATA_API_KEY")),
          IntOf(AppConfig.Lookup(cfg, "SETTINGS", "SLEEP_DURATION").value),
          AppConfig.Lookup(cfg, "SETTINGS", "INDEX_NAME").value)
  }

  /** After start-up validation the key read of every iteration succeeds. */
  lemma ApiKeyReadable(cfg: AppConfig.Config)
    requires AppConfig.ValidateStartup(cfg).Valid?
    ensures AppConfig.Lookup(cfg, "SECRETS", "WMATA_API_KEY").Success?
  {
    assert "WMATA_API_KEY" in Required.Secrets;
    AppConfig.ValidateStartupPasses(cfg);
    AppConfig.ValidatedKeysReadable(cfg, Required.Secrets, "SECRETS", "WMATA_API_KEY");
  }

  /** app/app.py as written: every iteration reads
      `CFG["SECRETS"]["WMATA_API_URL"]` and `CFG["SECRETS"]["WMATA_API_KEY"]`
      and calls its own `query_wmata_api`; `CFG["SETTINGS"]["INDEX_NAME"]`
      is read before every send and `int(CFG["SETTINGS"]["SLEEP_DURATION"])`
      after every iteration. The loop is only reached once start-up
      validation has passed. A URL missing from SECRETS stops the program
      before anything is fetched. */
  function AppRun(cfg: AppConfig.Config, rounds: seq<Round>, store: Bulk.Store,
                  fingerprint: Transform.Fingerprint): (r: Run)
    requires AppConfig.ValidateStartup(cfg).Valid?
    ensures forall d :: d in r.sleeps ==>
      IntOf(AppConfig.Lookup(cfg, "SETTINGS", "SLEEP_DURATION").value) == Success(d)
    ensures AppConfig.FeedEndpointAsWritten(cfg).Failure? && |rounds| > 0 ==>
      r == Run([], [], store, Some(AppConfig.FeedEndpointAsWritten(cfg).error))
  {
    Loop(AppSetup(cfg, AppAsWritten, AppConfig.FeedEndpointAsWritten(cfg)), rounds, store, fingerprint)
  }

  /** The loop of app/app.py as written never ends a transaction with
      `failure`: its query either returns a message or raises. */
  lemma AppRunNeverEndsInFailure(cfg: AppConfig.Config, rounds: seq<Round>, store: Bulk.Store,
                                 fingerprint: Transform.Fingerprint)
    requires AppConfig.ValidateStartup(cfg).Valid?
    ensures var r := AppRun(cfg, rounds, store, fingerprint);
      forall i :: 0 <= i < |r.endings| ==> r.endings[i] == EndSuccess
  {
    LoopEndings(AppSetup(cfg, AppAsWritten, AppConfig.FeedEndpointAsWritten(cfg)), rounds, store, fingerprint);
  }

  /** app/app.py with both defects repaired: the URL is read from SETTINGS,
      where start-up validated it, and the query keeps its documented
      promise. Every iteration then ends, and it ends in `failure` exactly
      when no parsable response came back. */
  function AppRunCorrected(cfg: AppConfig.Config, rounds: seq<Round>, store: Bulk.Store,
                           fingerprint: Transform.Fingerprint): (r: Run)
    requires AppConfig.ValidateStartup(cfg).Valid?
    ensures forall d :: d in r.sleeps ==>
      IntOf(AppConfig.Lookup(cfg, "SETTINGS", "SLEEP_DURATION").value) == Success(d)
    ensures |r.endings| <= |rounds|
    ensures forall i :: 0 <= i < |r.endings| ==>
      (r.endings[i] == EndFailure <==> !(rounds[i].net.Response? && rounds[i].net.feed.Some?))
  {
    var setup := AppSetup(cfg, Documented, AppConfig.FeedEndpoint(cfg));
    var r := Loop(setup, rounds, store, fingerprint);
    LoopEndings(setup, rounds, store, fingerprint);
    r
  }

  /** A sleep duration `int` rejects: main.py stops before fetching
      anything, app/app.py only after its first iteration has ended. */
  lemma BadDurationTiming(loader: ConfigLoader.Loader, cfg: AppConfig.Config, rounds: seq<Round>, store: Bulk.Store,
                          fingerprint: Transform.Fingerprint)
    requires AppConfig.ValidateStartup(cfg).Valid?
    requires AppConfig.FeedEndpointAsWritten(cfg).Success?
    requires IntOf(ConfigLoader.Setting(loader, "SLEEP_DURATION")).Failure?
    requires IntOf(AppConfig.Lookup(cfg, "SETTINGS", "SLEEP_DURATION").value).Failure?
    requires |rounds| > 0 && rounds[0].net == Response(Some([]))
    ensures MainRun(loader, rounds, store, fingerprint).endings == []
    ensures AppRun(cfg, rounds, store, fingerprint).endings == [EndSuccess]
    ensures AppRun(cfg, rounds, store, fingerprint).stop
         == Some(IntOf(AppConfig.Lookup(cfg, "SETTINGS", "SLEEP_DURATION").value).error)
  {
    ApiKeyReadable(cfg);
    SleepFailureStopsAfterFirst(AppSetup(cfg, AppAsWritten, AppConfig.FeedEndpointAsWritten(cfg)), rounds, store, fingerprint);
  }

  /** A sleep duration that does not evaluate stops the loop right after
      its first iteration. */
  lemma SleepFailureStopsAfterFirst(setup: Setup, rounds: seq<Round>, store: Bulk.Store, fingerprint: Transform.Fingerprint)
    requires setup.lookups.Pass? && setup.sleep.Failure?
    requires |rounds| > 0 && rounds[0].net == Response(Some([]))
    ensures Loop(setup, rounds, store, fingerprint) == Run([EndSuccess], [], store, Some(setup.sleep.error))
  {
    EmptyMessageSucceeds(setup.variant, store, rounds[0].link, fingerprint, setup.indexName);
  }

  /** A duration `time.sleep` rejects, such as ten billion seconds, stops
      the loop right after its first iteration with the exception it
      raises. */
  lemma RejectedSleepStopsAfterFirst(setup: Setup, rounds: seq<Round>, store: Bulk.Store,
                                     fingerprint: Transform.Fingerprint)
    requires setup.lookups.Pass? && setup.sleep.Success? && TimeSleep(setup.sleep.value).Fail?
    requires |rounds| > 0 && rounds[0].net == Response(Some([]))
    ensures Loop(setup, rounds, store, fingerprint)
         == Run([EndSuccess], [], store, Some(TimeSleep(setup.sleep.value).error))
  {
    EmptyMessageSucceeds(setup.variant, store, rounds[0].link, fingerprint, setup.indexName);
  }

  /** A message without entities transforms to nothing and sends nothing,
      and the iteration ends with `success`. */
  lemma EmptyMessageSucceeds(variant: Transform.Variant, store: Bulk.Store, link: Bulk.Link,
                             fingerprint: Transform.Fingerprint, indexName: Value)
    ensures var r := Step(variant, Fetched([]), store, link, fingerprint, indexName);
      r.Ended? && r.ending == EndSuccess && r.store == store
  {
    SuccessDespiteRejections(variant, [], store, Bulk.Up, fingerprint, indexName);
  }
}
