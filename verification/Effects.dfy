/** What the package controller asks of the driver, creates and reports, field by field: the
    effects of a step told without the functions that compute them
    (pkg/packages/manager.go, controllers/package_controller.go). */
module Effects {
  import opened Wrappers
  import opened Json
  import opened Strings
  import opened Bundles
  import opened Releases
  import opened Packages
  import opened Runs
  import opened Convergence

  // ------------------------------------------------------------ install calls

  /** Values that carry a configuration: each of its keys as it is, and as source registry its own
      non-empty text, else the controller's default, else the public one. */
  ghost predicate Carries(values: Values, config: Values, c: Controller, apart: set<string>) {
    && (forall k :: k != "sourceRegistry" && k !in apart ==>
          (k in values <==> k in config) && (k in config ==> values[k] == config[k]))
    && "sourceRegistry" in values
    && values["sourceRegistry"] == Str(
         if "sourceRegistry" in config && config["sourceRegistry"].Str? && config["sourceRegistry"].text != ""
         then config["sourceRegistry"].text
         else if c.defaultImageRegistry != "" then c.defaultImageRegistry
         else "783794618700.dkr.ecr.us-west-2.amazonaws.com")
  }

  lemma RegistryCarries(config: Values, c: Controller)
    ensures ImageRegistry(config, c).None? <==> "sourceRegistry" in config && !config["sourceRegistry"].Str?
    ensures ImageRegistry(config, c).Some? ==>
              Carries(config[SOURCE_REGISTRY := Str(ImageRegistry(config, c).value)], config, c, {})
  {
  }

  /** The source of a version, an empty registry replaced by the controller's default, or the public one. */
  predicate IsSourceOf(source: OCISource, bp: BundlePackage, v: SourceVersion, c: Controller) {
    && source.version == v.name && source.digest == v.digest && source.repository == bp.source.repository
    && source.registry == (if bp.source.registry != "" then bp.source.registry
                           else if c.defaultRegistry != "" then c.defaultRegistry
                           else "public.ecr.aws/eks-anywhere")
  }

  /** What a package asks for: version j of package i of the bundle, each the first that fits. */
  ghost predicate AsksFor(spec: PackageSpec, b: PackageBundle, i: nat, j: nat) {
    && IsFirstNamed(b.packages, spec.packageName, i)
    && IsFirstSelected(b.packages[i].source.versions,
                       if spec.packageVersion == "" then "latest" else spec.packageVersion, j)
  }

  lemma AsksForTarget(w: World, spec: PackageSpec) returns (i: nat, j: nat)
    requires Resolve(w, spec).Target?
    ensures AsksFor(spec, w.bundle.value, i, j)
    ensures var r := Resolve(w, spec);
            && r.version == w.bundle.value.packages[i].source.versions[j]
            && IsSourceOf(WithRegistry(r.source, GetDefaultRegistry(r.controller)), w.bundle.value.packages[i],
                          r.version, r.controller)
  {
    hide EqualFold, Selects;
    var packages := w.bundle.value.packages;
    i := FirstNamedExists(packages, spec.packageName);
    PackageNamedIsFirst(packages, spec.packageName, i);
    j := FirstSelectedExists(packages[i].source.versions, TargetVersion(spec));
    VersionNamedIsFirst(packages[i].source.versions, TargetVersion(spec), j);
  }

  lemma InstallTurnCall(w: World, name: string, env: Env)
    requires name in w.packages && (env.listing.Ok? ==> Enumerates(env.listing.value, w.packages.Keys))
    requires w.packages[name].status.state == StateEnum.Installing && |TurnOf(w, name, env).calls| > |w.calls|
    ensures var spec, r, call := w.packages[name].spec, Resolve(w, w.packages[name].spec),
                                 TurnOf(w, name, env).calls[|w.calls|];
            && r.Target? && spec.config.Document? && ImageRegistry(spec.config.values, r.controller).Some?
            && call.InstallCall? && call.source == WithRegistry(r.source, GetDefaultRegistry(r.controller))
            && call.values ==
               spec.config.values[SOURCE_REGISTRY := Str(ImageRegistry(spec.config.values, r.controller).value)]
  {
    hide Resolve, ImageRegistry, WithRegistry, GetDefaultRegistry, Releases.Installing, Enumerates,
         ProcessInstallingDependencies, ProcessInstalled;
  }

  /** Every driver install, in every world and so in every run, is of the source of what the package
      asks for, with values that carry its configuration. */
  lemma InstallCallIsAsked(w: World, e: Event, name: string)
    requires Admissible(w, e) && CallsInstall(w, e, name)
    ensures name in w.packages && w.controller.Ok? && w.bundle.Ok?
    ensures var spec, call := w.packages[name].spec, Apply(w, e).calls[|w.calls|];
            && spec.config.Document? && Carries(call.values, spec.config.values, w.controller.value, {})
            && exists i: nat, j: nat :: AsksFor(spec, w.bundle.value, i, j) &&
                 IsSourceOf(call.source, w.bundle.value.packages[i],
                            w.bundle.value.packages[i].source.versions[j], w.controller.value)
  {
    hide TurnOf, Carries, AsksFor, IsSourceOf;
    InstallsOnlyWhenInstalling(w, e, name);
    InstallIsOfStep(w, e, name);
    InstallTurnCall(w, name, e.env);
    var spec := w.packages[name].spec;
    RegistryCarries(spec.config.values, w.controller.value);
    var i, j := AsksForTarget(w, spec);
    AsksForIndices(spec, w.bundle.value, i, j);
  }

  lemma AsksForIndices(spec: PackageSpec, b: PackageBundle, i: nat, j: nat)
    requires AsksFor(spec, b, i, j)
    ensures i < |b.packages| && j < |b.packages[i].source.versions|
  {
  }

  lemma InstallIsOfStep(w: World, e: Event, name: string)
    requires Admissible(w, e) && CallsInstall(w, e, name) && name in w.packages
    ensures e.Step? && e.name == name && Apply(w, e).calls == TurnOf(w, name, e.env).calls
  {
    hide TurnOf, Resolve;
    if e.Step? && e.name in w.packages {
      TurnIsSound(w, e.name, e.env);
    }
  }

  /** A settled package has a release whose values carry its configuration, pull secrets apart. */
  lemma SettledReleaseCarries(w: World, name: string)
    requires w.controller.Ok? && w.bundle.Ok? && name in w.packages && Workable(w, name) && Settled(w, name)
    ensures name in w.releases
    ensures Carries(w.releases[name].config, w.packages[name].spec.config.values, w.controller.value,
                    {"imagePullSecrets"})
  {
    hide Resolve, ImageRegistry;
    RegistryCarries(w.packages[name].spec.config.values, w.controller.value);
  }

  // ------------------------------------------------------------ created packages

  /** Packages are created only for dependencies that no stored package names, each with the
      dependency's name, no version, the settings of the package that needs it, and no status. */
  lemma CreatedPackages(w: World, e: Event, born: string)
    requires Admissible(w, e) && e.Step? && born in Apply(w, e).packages && born !in w.packages
    ensures e.name in w.packages && w.packages[e.name].status.state == InstallingDependencies
    ensures var package, parent := Apply(w, e).packages[born], w.packages[e.name].spec;
            && package.spec.packageName == born && package.spec.packageVersion == ""
            && package.spec.config == parent.config && package.spec.targetNamespace == parent.targetNamespace
            && package.status.state == Unset
    ensures forall n :: n in w.packages ==> w.packages[n].spec.packageName != born
    ensures var r := Resolve(w, w.packages[e.name].spec);
            r.Target? && exists d :: d in r.version.dependencies && EqualFold(d, born)
  {
    TurnCreates(w, e.name, e.env, born);
  }

  lemma TurnCreates(w: World, name: string, env: Env, born: string)
    requires env.listing.Ok? ==> Enumerates(env.listing.value, w.packages.Keys)
    requires name in w.packages && born in TurnOf(w, name, env).packages && born !in w.packages
    ensures w.packages[name].status.state == InstallingDependencies
    ensures var package, parent := TurnOf(w, name, env).packages[born], w.packages[name].spec;
            && package.spec == PackageSpec(born, "", parent.config, parent.targetNamespace)
            && package.status == EMPTY_STATUS
    ensures forall n :: n in w.packages ==> w.packages[n].spec.packageName != born
    ensures var r := Resolve(w, w.packages[name].spec);
            r.Target? && exists d :: d in r.version.dependencies && EqualFold(d, born)
  {
    hide Resolve, WithDependencies, Items, LastNamed, NotReady, Releases.Installing, ImageRegistry, EqualFold;
    var p, r, items := w.packages[name], Resolve(w, w.packages[name].spec), Items(w.packages, env.listing.value);
    var deps := Resolved(r.bundle.packages, r.version.dependencies).value;
    DependenciesOnlyAdd(w.packages, deps, items, p.spec, env.refused);
    NotListedIsAbsent(w, env.listing.value, born);
    assert forall n :: n in w.packages ==> w.packages[n].spec.packageName != born by { assert !Present(w, born); }
    var k :| 0 <= k < |deps| && deps[k].name == born;
    FoldIsSymmetric(deps[k].name, r.version.dependencies[k]);
    assert r.version.dependencies[k] in r.version.dependencies;
  }

  lemma FoldIsSymmetric(a: string, b: string)
    ensures EqualFold(a, b) == EqualFold(b, a)
  {
  }

  // ------------------------------------------------------------ deleted packages

  /** The reconcile of a deleted package, if nothing fails, uninstalls its release and no other. */
  lemma DeletedPackageIsUninstalled(w: World, name: string, env: Env)
    requires name !in w.packages && IsValidNamespace(w.namespace)
    requires env.listing.Ok? ==> Enumerates(env.listing.value, w.packages.Keys)
    requires env.getError.None? && env.initializeError.None?
    ensures var w' := Reconcile(w, name, env);
            && w'.packages == w.packages && w'.calls == w.calls + [UninstallCall(name)]
            && (env.uninstallError.None? ==> name !in w'.releases)
            && (env.uninstallError.Some? ==> w'.releases == w.releases)
            && forall n :: n != name ==> (n in w'.releases <==> n in w.releases) &&
                                         (n in w.releases ==> w'.releases[n] == w.releases[n])
  {
    UninstallLeaves(w.releases, name, env.uninstallError);
  }

  /** Where the package or the driver cannot be reached, or the namespace is not one of the controller's,
      the reconcile of a deleted package does nothing. */
  lemma DeletedPackageMayStay(w: World, name: string, env: Env)
    requires name !in w.packages && (env.listing.Ok? ==> Enumerates(env.listing.value, w.packages.Keys))
    requires !IsValidNamespace(w.namespace) || env.getError.Some? || env.initializeError.Some?
    ensures Reconcile(w, name, env) == w
  {
  }

  // ---------------------------------------------------------------- the status

  /** An early exit is told, and changes nothing but the detail. */
  lemma EarlyExitsAreTold(w: World, name: string, env: Env)
    requires name in w.packages && (env.listing.Ok? ==> Enumerates(env.listing.value, w.packages.Keys))
    requires env.getError.None? && env.statusWrite && Resolve(w, w.packages[name].spec).Unresolved?
    ensures var p := w.packages[name];
            Reconcile(w, name, env) ==
            w.(packages := w.packages[name := p.(status := p.status.(detail := Resolve(w, p.spec).detail))])
  {
    hide Resolve;
  }

  /** A package outside the controller's namespaces becomes Unknown, and is told why, once. */
  lemma ForeignNamespaceIsTold(w: World, name: string, env: Env)
    requires name in w.packages && (env.listing.Ok? ==> Enumerates(env.listing.value, w.packages.Keys))
    requires w.namespace != "eksa-packages" && !("eksa-packages-" <= w.namespace)
    requires env.getError.None? && env.statusWrite && Resolve(w, w.packages[name].spec).Target?
    ensures var before, w' := w.packages[name].status, Reconcile(w, name, env);
            if before.state == Unknown then w' == w
            else w'.packages.Keys == w.packages.Keys && w'.packages[name].status.state == Unknown
                 && w'.packages[name].status.detail == NamespacePrefix && w'.calls == w.calls
  {
    hide Resolve;
  }

  /** A dependency check that cannot be made tells why and leaves the state; so does one that passes, by
      an empty detail. */
  lemma CheckIsTold(w: World, name: string, env: Env)
    requires name in w.packages && (env.listing.Ok? ==> Enumerates(env.listing.value, w.packages.Keys))
    requires IsValidNamespace(w.namespace) && env.getError.None? && env.statusWrite
    requires Resolve(w, w.packages[name].spec).Target? && w.packages[name].status.state == InstallingDependencies
    ensures name in Reconcile(w, name, env).packages
    ensures var r, after := Resolve(w, w.packages[name].spec), Reconcile(w, name, env).packages[name].status;
            var deps := Resolved(r.bundle.packages, r.version.dependencies);
            && (deps.None? ==> after.state == InstallingDependencies &&
                               after.detail == InvalidBundle(name, r.version, r.bundle.name))
            && (deps.Some? && env.listing.Err? ==> after.state == InstallingDependencies &&
                                                   after.detail == Failure(env.listing.error))
            && (after.state == StateEnum.Installing ==> after.detail == NoDetail)
  {
    TurnIsSound(w, name, env);
    hide Resolve, NotReady, WithDependencies, Items, Enumerates, SoundTurn, Resolved;
  }

  /** So does a drift check that cannot be made. */
  lemma DriftFailuresAreTold(w: World, name: string, env: Env, error: string)
    requires name in w.packages && (env.listing.Ok? ==> Enumerates(env.listing.value, w.packages.Keys))
    requires IsValidNamespace(w.namespace) && env.getError.None? && env.statusWrite
    requires w.packages[name].status.state == Installed && Resolve(w, w.packages[name].spec).Target?
    requires w.packages[name].status.source == Resolve(w, w.packages[name].spec).source
    requires var config := w.packages[name].spec.config;
             config == Malformed(error) || (config.Document? && env.initializeError == Some(error))
    ensures var w' := Reconcile(w, name, env);
            && name in w'.packages && w'.packages[name].status.state == Installed
            && w'.packages[name].status.detail == Failure(error)
  {
    hide Resolve, ImageRegistry, ConfigChanged, ProcessInstallingDependencies, ProcessInstalling;
  }

  /** Every failure of a package about to be installed is told in its status, and nothing else there
      changes but the source it was tried from. */
  lemma InstallFailuresAreTold(w: World, name: string, env: Env, error: string)
    requires name in w.packages && (env.listing.Ok? ==> Enumerates(env.listing.value, w.packages.Keys))
    requires IsValidNamespace(w.namespace) && env.getError.None? && env.statusWrite
    requires w.packages[name].status.state == StateEnum.Installing && Resolve(w, w.packages[name].spec).Target?
    requires var config := w.packages[name].spec.config;
             || config == Malformed(error)
             || (config.Document? && ImageRegistry(config.values, w.controller.value).Some? &&
                 var values :=
                   config.values[SOURCE_REGISTRY := Str(ImageRegistry(config.values, w.controller.value).value)];
                 env.initializeError == Some(error) || (env.initializeError.None? &&
                   Releases.Installing(w.releases, name, w.packages[name].spec.targetNamespace, values,
                                       env.install).1 == Failed(error)))
    ensures var w' := Reconcile(w, name, env);
            && name in w'.packages && w'.packages[name].status.state == StateEnum.Installing
            && w'.packages[name].status.detail == Failure(error)
            && w'.packages[name].status.source == Resolve(w, w.packages[name].spec).source
            && w'.packages[name].status.currentVersion == w.packages[name].status.currentVersion
  {
    hide Resolve, ImageRegistry, ProcessInstallingDependencies, ProcessInstalled, Releases.Installing;
  }

  /** What the moves of a package record: its spec and source when it is taken up, its spec when it is
      installed or its configuration has changed, and a hint when it lives in the old namespace. */
  ghost predicate Records(namespace: string, spec: PackageSpec, source: OCISource,
                          before: PackageStatus, after: PackageStatus) {
    && (before.state in {Unset, Initializing} ==> after.spec == spec && after.source == source)
    && (after.state == Installed != before.state ==>
          && after.spec == spec
          && after.detail == if namespace == "eksa-packages" || namespace == "eksa-packages-"
                             then DeprecatedNamespace else NoDetail)
    && (after.state == Updating != before.state ==> after.spec == spec || after.source == source != before.source)
  }

  /** A stored status shows the version asked for, with the one that latest stands for, and records the move. */
  lemma StatusTells(w: World, name: string, env: Env)
    requires name in w.packages && (env.listing.Ok? ==> Enumerates(env.listing.value, w.packages.Keys))
    requires IsValidNamespace(w.namespace) && env.getError.None? && env.statusWrite
    requires Resolve(w, w.packages[name].spec).Target? && TurnOf(w, name, env).store
    ensures var w' := Reconcile(w, name, env);
            && name in w'.packages
            && var spec, before, after := w.packages[name].spec, w.packages[name].status, w'.packages[name].status;
            && after.targetVersion == (if spec.packageVersion in {"", "latest"}
                                       then Resolve(w, spec).version.name + " (latest)" else spec.packageVersion)
            && Records(w.namespace, spec, Resolve(w, spec).source, before, after)
  {
    hide Process, Resolve, Enumerates;
    var p, r := w.packages[name], Resolve(w, w.packages[name].spec);
    var p1 := p.(status := p.status.(targetVersion := PrintableTargetVersion(r.source, TargetVersion(p.spec))));
    assert TurnOf(w, name, env) == Process(w, p1, name, r.controller, r.bundle, r.version, r.source, env);
    ProcessRecords(w, p1, name, r, env);
  }

  lemma ProcessRecords(w: World, p: Package, name: string, r: Resolution, env: Env)
    requires env.listing.Ok? ==> Enumerates(env.listing.value, w.packages.Keys)
    requires IsValidNamespace(w.namespace) && r.Target?
    ensures var t := Process(w, p, name, r.controller, r.bundle, r.version, r.source, env);
            t.store ==> Records(w.namespace, p.spec, r.source, p.status, t.pkg.status)
                        && t.pkg.status.targetVersion == p.status.targetVersion
  {
    hide ProcessInstallingDependencies, ProcessInstalling, ProcessInstalled, ProcessUninstalling, Enumerates;
    if p.status.state == InstallingDependencies {
      CheckRecords(w, p, name, r, env);
    } else if p.status.state == StateEnum.Installing {
      InstallRecords(w, p, name, r, env);
    } else if p.status.state == Installed {
      DriftRecords(w, p, name, r, env);
    } else if p.status.state == Uninstalling {
      UninstallRecords(w, p, name, env);
    }
  }

  lemma CheckRecords(w: World, p: Package, name: string, r: Resolution, env: Env)
    requires env.listing.Ok? ==> Enumerates(env.listing.value, w.packages.Keys)
    requires r.Target? && p.status.state == InstallingDependencies
    ensures var t := ProcessInstallingDependencies(w, p, name, r.bundle, r.version, env);
            && Records(w.namespace, p.spec, r.source, p.status, t.pkg.status)
            && t.pkg.status.targetVersion == p.status.targetVersion
  {
    hide WithDependencies, NotReady, Items, Enumerates, Resolved;
  }

  lemma InstallRecords(w: World, p: Package, name: string, r: Resolution, env: Env)
    requires IsValidNamespace(w.namespace) && r.Target? && p.status.state == StateEnum.Installing
    ensures var t := ProcessInstalling(w, p, name, r.controller, r.source, env);
            && Records(w.namespace, p.spec, r.source, p.status, t.pkg.status)
            && t.pkg.status.targetVersion == p.status.targetVersion
  {
    hide ImageRegistry, Releases.Installing;
    OldNamespace(w.namespace);
    hide IsValidNamespace, GetClusterName;
  }

  lemma OldNamespace(namespace: string)
    requires IsValidNamespace(namespace)
    ensures GetClusterName(namespace) == "" <==> namespace == "eksa-packages" || namespace == "eksa-packages-"
  {
    if NAMESPACE_PREFIX <= namespace { assert namespace == NAMESPACE_PREFIX + GetClusterName(namespace); }
  }

  lemma DriftRecords(w: World, p: Package, name: string, r: Resolution, env: Env)
    requires r.Target? && p.status.state == Installed
    ensures var t := ProcessInstalled(w, p, name, r.controller, r.source, env);
            && Records(w.namespace, p.spec, r.source, p.status, t.pkg.status)
            && t.pkg.status.targetVersion == p.status.targetVersion
  {
    hide ImageRegistry, ConfigChanged;
  }

  lemma UninstallRecords(w: World, p: Package, name: string, env: Env)
    ensures !ProcessUninstalling(w, p, name, env).store
  {
  }

  /** A package that waits says for what: the dependencies that no listed package, or one that is not
      Installed, stands for. */
  lemma WaitingIsTold(w: World, name: string, env: Env, waited: string)
    requires AtDependencyCheck(w, name, env)
    requires name in Reconcile(w, name, env).packages
    requires Reconcile(w, name, env).packages[name].status.state == InstallingDependencies
    ensures var detail := Reconcile(w, name, env).packages[name].status.detail;
            detail.WaitingFor? && (waited in detail.dependencies <==>
              exists d :: d in Dependencies(w, name).value && d.name == waited
                          && !Ready(Items(w.packages, env.listing.value), d.name))
  {
    TurnAtCheck(w, name, env);
    NotReadyNames(Dependencies(w, name).value, Items(w.packages, env.listing.value), waited);
    hide TurnOf, Resolve, NotReady, Ready, WithDependencies, Items, IsValidNamespace, Enumerates, NoCollision;
  }

  /** A package that cannot be read, or whose status write is refused, keeps its status. */
  lemma RefusedWritesChangeNothing(w: World, name: string, env: Env)
    requires env.listing.Ok? ==> Enumerates(env.listing.value, w.packages.Keys)
    ensures env.getError.Some? ==> Reconcile(w, name, env) == w
    ensures !env.statusWrite ==>
              forall n :: n in w.packages ==>
                n in Reconcile(w, name, env).packages && Reconcile(w, name, env).packages[n] == w.packages[n]
  {
    hide TurnOf;
    if name in w.packages { TurnIsSound(w, name, env); }
  }
}
