/** The decisions of the Helm driver over the releases Helm has stored
    (pkg/driver/helmdriver.go). What Helm, the chart registry and the API server
    answer is taken as an input. */
module Releases {
  import opened Wrappers
  import opened Json

  /** Helm's record of an installed chart; config is exactly the values passed in. */
  datatype Release = Release(config: Values, namespace: string)

  const SOURCE_REGISTRY := "sourceRegistry"
  const IMAGE_PULL_SECRETS := "imagePullSecrets"
  const DEFAULT_NAMESPACE := "defaultNamespace"

  /** The secrets the authenticator adds to every release (pkg/authenticator/ecrsecret.go:133). */
  const PULL_SECRETS: Json :=
    Arr([Obj(map["name" := Str("ecr-token")]), Obj(map["name" := Str("registry-mirror-cred")])])

  /** Answers of the world to one Install: the chart's own values, an error of
      `helm get` other than not-found, an error of install or upgrade, whether Helm
      keeps the failed revision, and whether entering the release in the namespace
      book, or taking it out again, panics. */
  datatype InstallEnv = InstallEnv(
    chart: Result<Values>,
    lookupError: Option<string>,
    deployError: Option<string>,
    keepsFailed: bool,
    addPanics: bool,
    delPanics: bool)

  function WithPullSecrets(values: Values): Values {
    values[IMAGE_PULL_SECRETS := PULL_SECRETS]
  }

  /** Where a chart goes. None is the failed type assertion on a chart's default namespace. */
  function TargetNamespace(namespace: string, chart: Values): Option<string> {
    if namespace != "" then Some(namespace)
    else if DEFAULT_NAMESPACE in chart then
      if chart[DEFAULT_NAMESPACE].Str? then Some(chart[DEFAULT_NAMESPACE].text) else None
    else Some("default")
  }

  /** Releases after an Install, and how the call ends. An upgrade keeps the release's namespace.
      A new release is entered in the book before it is deployed, an upgraded one afterwards. */
  function Installing(releases: map<string, Release>, name: string, namespace: string,
                      values: Values, env: InstallEnv): (map<string, Release>, Done)
  {
    match env.chart
    case Err(e) => (releases, Failed(e))
    case Ok(chart) =>
      match TargetNamespace(namespace, chart)
      case None => (releases, Panicked)
      case Some(target) =>
        if env.lookupError.Some? then (releases, Failed(env.lookupError.value))
        else if name !in releases && env.addPanics then (releases, Panicked) else
        var home := if name in releases then releases[name].namespace else target;
        var updated := releases[name := Release(WithPullSecrets(values), home)];
        match env.deployError
        case None => (updated, if env.addPanics then Panicked else Completed)
        case Some(e) => (if env.keepsFailed then updated else releases,
                         if name !in releases && env.delPanics then Panicked else Failed(e))
  }

  /** Releases after an Uninstall, and how the call ends. */
  function Uninstalling(releases: map<string, Release>, name: string, error: Option<string>)
    : (map<string, Release>, Done)
  {
    if error.Some? then (releases, Failed(error.value)) else (releases - {name}, Completed)
  }

  /** Whether a release must be updated to reach the given values. */
  predicate ConfigChanged(releases: map<string, Release>, name: string, values: Values, lookupFails: bool) {
    if lookupFails || name !in releases then true
    else
      var config := releases[name].config;
      var wanted :=
        if IMAGE_PULL_SECRETS !in values && IMAGE_PULL_SECRETS in config
        then values[IMAGE_PULL_SECRETS := config[IMAGE_PULL_SECRETS]]
        else values;
      wanted != config
  }

  /** Nothing has to be updated exactly when the release can be read and has the wanted values, where pull
      secrets count only if the configuration names them. */
  lemma UnchangedIff(releases: map<string, Release>, name: string, values: Values, lookupFails: bool)
    ensures !ConfigChanged(releases, name, values, lookupFails) <==>
            && !lookupFails && name in releases
            && var config := releases[name].config;
            && (forall k :: k != "imagePullSecrets" ==>
                  (k in values <==> k in config) && (k in values ==> values[k] == config[k]))
            && ("imagePullSecrets" in values ==>
                  "imagePullSecrets" in config && values["imagePullSecrets"] == config["imagePullSecrets"])
  {
    if !lookupFails && name in releases {
      var config := releases[name].config;
      var wanted := if IMAGE_PULL_SECRETS !in values && IMAGE_PULL_SECRETS in config
                    then values[IMAGE_PULL_SECRETS := config[IMAGE_PULL_SECRETS]] else values;
      assert wanted == config <==> wanted.Keys == config.Keys && forall k :: k in config ==> wanted[k] == config[k];
      assert wanted.Keys == config.Keys <==> forall k :: k in wanted <==> k in config;
    }
  }

  /** The drift check accepts what Install has just written exactly when the
      configuration leaves the pull secrets to the driver, or names the same ones. */
  lemma DriftAfterInstall(releases: map<string, Release>, name: string, namespace: string,
                          values: Values, env: InstallEnv)
    requires Installing(releases, name, namespace, values, env).1 == Completed
    ensures ConfigChanged(Installing(releases, name, namespace, values, env).0, name, values, false)
       <==> IMAGE_PULL_SECRETS in values && values[IMAGE_PULL_SECRETS] != PULL_SECRETS
  {
    var config := WithPullSecrets(values);
    assert Installing(releases, name, namespace, values, env).0[name].config == config;
    assert config[IMAGE_PULL_SECRETS] == PULL_SECRETS;
    if IMAGE_PULL_SECRETS in values && values[IMAGE_PULL_SECRETS] == PULL_SECRETS {
      assert values == config;
    }
  }

  /** A completed install leaves a release with exactly the values passed in and the driver's two
      pull secrets. A new one goes where it was asked to, else where its chart says, else to the
      namespace default; an upgraded one stays where it is. */
  lemma InstallLeaves(releases: map<string, Release>, name: string, namespace: string, values: Values, env: InstallEnv)
    requires Installing(releases, name, namespace, values, env).1 == Completed
    ensures var after := Installing(releases, name, namespace, values, env).0;
            && name in after
            && after.Keys == releases.Keys + {name}
            && (forall n :: n in releases && n != name ==> after[n] == releases[n])
            && var Release(config, home) := after[name];
            && config.Keys == values.Keys + {"imagePullSecrets"}
            && (forall k :: k in values && k != "imagePullSecrets" ==> config[k] == values[k])
            && config["imagePullSecrets"] ==
               Arr([Obj(map["name" := Str("ecr-token")]), Obj(map["name" := Str("registry-mirror-cred")])])
            && env.chart.Ok?
            && if name in releases then home == releases[name].namespace
               else if namespace != "" then home == namespace
               else if "defaultNamespace" in env.chart.value then Str(home) == env.chart.value["defaultNamespace"]
               else home == "default"
  {
  }

  /** How an install ends: without a failure or panic on the way it completes, and what it fails with is
      the first error met. */
  lemma InstallEnds(releases: map<string, Release>, name: string, namespace: string, values: Values, env: InstallEnv)
    ensures var done := Installing(releases, name, namespace, values, env).1;
            var placed := env.chart.Ok? && (namespace != "" || "defaultNamespace" !in env.chart.value
                                            || env.chart.value["defaultNamespace"].Str?);
            && (done == Completed <==>
                placed && env.lookupError.None? && env.deployError.None? && !env.addPanics)
            && (done.Failed? ==> done.error == (if env.chart.Err? then env.chart.error
                                                else if env.lookupError.Some? then env.lookupError.value
                                                else if env.deployError.Some? then env.deployError.value else ""))
            && (done.Failed? ==> env.chart.Err? || env.lookupError.Some? || env.deployError.Some?)
            && (env.chart.Err? || (placed && env.lookupError.Some?) ==> done.Failed?)
  {
  }

  /** A failed install changes at most its own release, and that only if Helm keeps the failed revision. */
  lemma FailedInstallLeaves(releases: map<string, Release>, name: string, namespace: string, values: Values,
                            env: InstallEnv)
    requires Installing(releases, name, namespace, values, env).1.Failed?
    ensures var after := Installing(releases, name, namespace, values, env).0;
            && (!env.keepsFailed || env.deployError.None? ==> after == releases)
            && forall n :: n != name ==> (n in after <==> n in releases) && (n in releases ==> after[n] == releases[n])
  {
  }

  /** An uninstall without error removes the release and no other; one with an error removes nothing. */
  lemma UninstallLeaves(releases: map<string, Release>, name: string, error: Option<string>)
    ensures var (after, done) := Uninstalling(releases, name, error);
            && (error.None? ==> done == Completed && name !in after)
            && (error.Some? ==> done == Failed(error.value) && after == releases)
            && forall n :: n != name ==> (n in after <==> n in releases) && (n in releases ==> after[n] == releases[n])
  {
  }
}
