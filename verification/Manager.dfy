/** The package controller as it is coded: a manager context whose fields the state
    functions update in place, over the API server and the Helm driver
    (pkg/packages/manager.go, controllers/package_controller.go). */
module Manager {
  import opened Wrappers
  import opened Json
  import opened Strings
  import opened Bundles
  import opened Releases
  import opened Packages
  import opened Driver
  import Runs

  /** One namespace of the API server and the driver for its target cluster. */
  class Cluster {
    const namespace: string
    const helm: HelmDriver
    var packages: map<string, Package>
    var controller: Result<Controller>
    var bundle: Result<PackageBundle>
    ghost var calls: seq<DriverCall>

    constructor (namespace: string, helm: HelmDriver, controller: Result<Controller>, bundle: Result<PackageBundle>)
      ensures this.namespace == namespace && this.helm == helm
      ensures packages == map[] && this.controller == controller && this.bundle == bundle && calls == []
    {
      this.namespace := namespace;
      this.helm := helm;
      this.packages := map[];
      this.controller := controller;
      this.bundle := bundle;
      this.calls := [];
    }

    ghost function Snapshot(): World
      reads this, helm
    {
      World(namespace, packages, controller, bundle, helm.releases, calls)
    }

    method GetPackageList(order: seq<string>) returns (items: seq<Package>)
      requires Enumerates(order, packages.Keys)
      ensures items == Items(packages, order)
    {
      items := Items(packages, order);
    }

    method CreatePackage(name: string, spec: PackageSpec, refused: set<string>)
      modifies this`packages
      ensures packages == if name in refused || name in old(packages) then old(packages)
                          else old(packages)[name := NewPackage(spec)]
    {
      if name !in refused && name !in packages {
        packages := packages[name := NewPackage(spec)];
      }
    }
  }

  /** The answers of the outside together with those of the driver's namespace book. */
  function Seen(env: Env, book: Book, b: BookEnv): Env {
    env.(install := WithBook(env.install, book, b))
  }

  class ManagerContext {
    const name: string
    const cluster: Cluster
    var pkg: Package
    var source: OCISource
    var version: SourceVersion
    var pbc: Controller
    var bundle: PackageBundle

    constructor (name: string, cluster: Cluster, pkg: Package)
      ensures this.name == name && this.cluster == cluster && this.pkg == pkg
    {
      this.name := name;
      this.cluster := cluster;
      this.pkg := pkg;
      this.source := OCISource("", "", "", "");
      this.version := SourceVersion("", "", []);
      this.pbc := Controller("", "", false);
      this.bundle := PackageBundle("", []);
    }

    /** The objects are now as this turn leaves them; a turn that asks for it hands back its package. */
    twostate predicate Took(t: Turn, store: bool)
      reads this, cluster, cluster.helm
    {
      && store == t.store && (store ==> pkg == t.pkg)
      && cluster.packages == t.packages && cluster.helm.releases == t.releases && cluster.calls == t.calls
      && cluster.controller == old(cluster.controller) && cluster.bundle == old(cluster.bundle)
    }

    method GetImageRegistry(values: Values) returns (registry: Option<string>)
      ensures registry == ImageRegistry(values, pbc)
    {
      if SOURCE_REGISTRY in values {
        var val := values[SOURCE_REGISTRY];
        if val != Str("") {
          return if val.Str? then Some(val.text) else None;
        }
      }
      return Some(GetDefaultImageRegistry(pbc));
    }

    method ProcessInitializing() returns (store: bool)
      modifies this
      ensures store && pkg == CopySpec(SetState(SetSource(old(pkg), old(source)), InstallingDependencies))
    {
      pkg := SetSource(pkg, source);
      pkg := SetState(pkg, InstallingDependencies);
      pkg := CopySpec(pkg);
      return true;
    }

    method ProcessUpdating() returns (store: bool)
      modifies this
      ensures store && pkg == SetState(old(pkg), InstallingDependencies)
    {
      pkg := SetState(pkg, InstallingDependencies);
      return true;
    }

    method FindLast(items: seq<Package>, packageName: string) returns (last: Option<Package>)
      ensures last == LastNamed(items, packageName)
    {
      last := None;
      for i := 0 to |items|
        invariant last == LastNamed(items[..i], packageName)
      {
        assert items[..i + 1][..i] == items[..i];
        if items[i].spec.packageName == packageName {
          last := Some(items[i]);
        }
      }
      assert items[..|items|] == items;
    }

    /** The loop over the dependencies: collects those that are not ready, and creates the missing ones. */
    method ScanDependencies(deps: seq<BundlePackage>, items: seq<Package>, env: Env) returns (notReady: seq<string>)
      modifies cluster`packages
      ensures notReady == NotReady(deps, items)
      ensures cluster.packages == WithDependencies(old(cluster.packages), deps, items, pkg.spec, env.refused)
    {
      notReady := [];
      for k := 0 to |deps|
        invariant notReady == NotReady(deps[..k], items)
        invariant cluster.packages == WithDependencies(old(cluster.packages), deps[..k], items, pkg.spec, env.refused)
      {
        assert deps[..k + 1][..k] == deps[..k];
        var last := FindLast(items, deps[k].name);
        if last.Some? {
          if last.value.status.state != Installed {
            notReady := notReady + [last.value.spec.packageName];
          }
        } else {
          var spec := PackageSpec(deps[k].name, "", pkg.spec.config, pkg.spec.targetNamespace);
          notReady := notReady + [spec.packageName];
          cluster.CreatePackage(deps[k].name, spec, env.refused);
        }
      }
      assert deps[..|deps|] == deps;
    }

    method ProcessInstallingDependencies(env: Env) returns (store: bool)
      requires env.listing.Ok? ==> Enumerates(env.listing.value, cluster.packages.Keys)
      modifies this`pkg, cluster`packages
      ensures Took(Packages.ProcessInstallingDependencies(old(cluster.Snapshot()), old(pkg), name, bundle, version,
                                                          env), store)
    {
      hide Items, NotReady, WithDependencies, Resolved;
      var dependencies := GetDependencies(bundle, version);
      if dependencies.None? {
        pkg := SetDetail(pkg, InvalidBundle(name, version, bundle.name));
        return true;
      }
      if env.listing.Err? {
        pkg := SetDetail(pkg, Failure(env.listing.error));
        return true;
      }
      var items := cluster.GetPackageList(env.listing.value);
      var notReady := ScanDependencies(dependencies.value, items, env);
      if |notReady| > 0 {
        pkg := SetDetail(pkg, WaitingFor(notReady));
        return true;
      }
      pkg := SetState(pkg, StateEnum.Installing);
      pkg := SetDetail(pkg, NoDetail);
      return true;
    }

    method ProcessInstalling(env: Env, b: BookEnv) returns (store: bool)
      modifies this`pkg, this`source, cluster`calls, cluster.helm, cluster.helm.secretAuth
      ensures Took(Packages.ProcessInstalling(old(cluster.Snapshot()), old(pkg), name, pbc, old(source),
                                              Seen(env, old(cluster.helm.secretAuth.data), b)), store)
    {
      hide Packages.Deploy, WithBook;
      pkg := SetSource(pkg, source);
      if pkg.spec.config.Malformed? {
        pkg := SetDetail(pkg, Failure(pkg.spec.config.error));
        return true;
      }
      var values := pkg.spec.config.values;
      var registry := GetImageRegistry(values);
      if registry.None? { return false; }
      values := values[SOURCE_REGISTRY := Str(registry.value)];
      if source.registry == "" {
        source := source.(registry := GetDefaultRegistry(pbc));
      }
      if env.initializeError.Some? {
        pkg := SetDetail(pkg, Failure(env.initializeError.value));
        return true;
      }
      store := Deploy(values, env, b);
    }

    /** The second half of the installation: the call of the driver and what becomes of the package. */
    method Deploy(values: Values, env: Env, b: BookEnv) returns (store: bool)
      modifies this`pkg, cluster`calls, cluster.helm, cluster.helm.secretAuth
      ensures Took(Packages.Deploy(old(cluster.Snapshot()), old(pkg), name, source, values,
                                   Seen(env, old(cluster.helm.secretAuth.data), b)), store)
    {
      hide Releases.Installing, InstallStep, WithBook;
      var done := cluster.helm.Install(name, pkg.spec.targetNamespace, values, env.install, b);
      cluster.calls := cluster.calls + [InstallCall(name, source, values, done)];
      if done.Panicked? { return false; }
      if done.Failed? {
        pkg := SetDetail(pkg, Failure(done.error));
        return true;
      }
      pkg := SetState(pkg, Installed);
      pkg := pkg.(status := pkg.status.(currentVersion := source.version));
      pkg := SetDetail(pkg, NoDetail);
      if GetClusterName(cluster.namespace) == "" {
        pkg := SetDetail(pkg, DeprecatedNamespace);
      }
      pkg := CopySpec(pkg);
      return true;
    }

    method ProcessInstalled(env: Env) returns (store: bool)
      modifies this`pkg
      ensures Took(Packages.ProcessInstalled(old(cluster.Snapshot()), old(pkg), name, pbc, source, env), store)
    {
      if pkg.status.source != source {
        pkg := SetSource(pkg, source);
        pkg := SetState(pkg, Updating);
        return true;
      }
      if pkg.spec.config.Malformed? {
        pkg := SetDetail(pkg, Failure(pkg.spec.config.error));
        return true;
      }
      var newValues := pkg.spec.config.values;
      if env.initializeError.Some? {
        pkg := SetDetail(pkg, Failure(env.initializeError.value));
        return true;
      }
      var registry := GetImageRegistry(newValues);
      if registry.None? { return false; }
      newValues := newValues[SOURCE_REGISTRY := Str(registry.value)];
      var needs := cluster.helm.IsConfigChanged(name, newValues, env.lookupFails);
      if needs {
        pkg := SetState(pkg, Updating);
        pkg := CopySpec(pkg);
        return true;
      }
      return false;
    }

    method ProcessUninstalling(env: Env, b: BookEnv) returns (store: bool)
      modifies this`pkg, cluster`calls, cluster.helm, cluster.helm.secretAuth
      ensures Took(Packages.ProcessUninstalling(old(cluster.Snapshot()), old(pkg), name, env), store)
    {
      if env.initializeError.Some? {
        pkg := SetDetail(pkg, Failure(env.initializeError.value));
        return false;
      }
      var done := cluster.helm.Uninstall(name, env.uninstallError, b);
      cluster.calls := cluster.calls + [UninstallCall(name)];
      if done.Panicked? { return false; }
      pkg := SetDetail(pkg, if done.Failed? then Failure(done.error) else NoDetail);
      return false;
    }

    method Process(env: Env, b: BookEnv) returns (store: bool)
      requires env.listing.Ok? ==> Enumerates(env.listing.value, cluster.packages.Keys)
      modifies this, cluster`packages, cluster`calls, cluster.helm, cluster.helm.secretAuth
      ensures Took(Packages.Process(old(cluster.Snapshot()), old(pkg), name, old(pbc), old(bundle), old(version),
                                    old(source), Seen(env, old(cluster.helm.secretAuth.data), b)), store)
    {
      hide Packages.ProcessInstallingDependencies, Packages.ProcessInstalling, Packages.ProcessInstalled,
           Packages.ProcessUninstalling;
      if !IsValidNamespace(cluster.namespace) {
        pkg := SetDetail(pkg, NamespacePrefix);
        if pkg.status.state == Unknown { return false; }
        pkg := SetState(pkg, Unknown);
        return true;
      }
      BookMattersToInstalls(cluster.Snapshot(), pkg, name, pbc, bundle, version, source, env,
                            cluster.helm.secretAuth.data, b);
      match pkg.status.state {
        case Unset | Initializing => store := ProcessInitializing();
        case Updating => store := ProcessUpdating();
        case InstallingDependencies => store := ProcessInstallingDependencies(env);
        case Installing => store := ProcessInstalling(env, b);
        case Installed => store := ProcessInstalled(env);
        case Uninstalling => store := ProcessUninstalling(env, b);
        case Unknown => store := false;
        case Unlisted(_) =>
          pkg := CopySpec(SetDetail(pkg, UnknownState(pkg.status.state)));
          store := true;
      }
    }
  }

  /** The other turns do not look at the namespace book. */
  lemma BookMattersToInstalls(w: World, p: Package, name: string, c: Controller, bundle: PackageBundle,
                              v: SourceVersion, source: OCISource, env: Env, book: Book, b: BookEnv)
    requires env.listing.Ok? ==> Enumerates(env.listing.value, w.packages.Keys)
    ensures var seen := Seen(env, book, b);
            && Packages.ProcessInstallingDependencies(w, p, name, bundle, v, seen)
               == Packages.ProcessInstallingDependencies(w, p, name, bundle, v, env)
            && Packages.ProcessInstalled(w, p, name, c, source, seen)
               == Packages.ProcessInstalled(w, p, name, c, source, env)
            && Packages.ProcessUninstalling(w, p, name, seen) == Packages.ProcessUninstalling(w, p, name, env)
  {
  }

  /** The first half of PackageReconciler.Reconcile: what the package resolves to. */
  method ResolvePackage(cluster: Cluster, spec: PackageSpec) returns (r: Resolution)
    ensures r == Resolve(cluster.Snapshot(), spec)
  {
    if cluster.controller.Err? { return Unresolved(Failure(cluster.controller.error)); }
    if cluster.bundle.Err? { return Unresolved(Failure(cluster.bundle.error)); }
    var bundle := cluster.bundle.value;
    var wanted := if spec.packageVersion == "" then LATEST else spec.packageVersion;
    var bp := FindPackage(bundle, spec.packageName);
    if bp.None? { return Unresolved(NotInBundle(spec.packageName, bundle.name)); }
    var v := FindVersion(bp.value, wanted);
    if v.None? { return Unresolved(VersionNotInBundle(spec.packageName, wanted, bundle.name)); }
    return Target(cluster.controller.value, bundle, v.value, GetOCISource(bp.value, v.value));
  }

  /** printableTargetVersion: the version "latest" stands for is shown with it. */
  method PrintableVersion(source: OCISource, wanted: string) returns (printable: string)
    ensures printable == PrintableTargetVersion(source, wanted)
  {
    printable := wanted;
    if wanted == LATEST {
      printable := source.version + " (" + wanted + ")";
    }
  }

  /** PackageReconciler.Reconcile. */
  method Reconcile(cluster: Cluster, name: string, env: Env, b: BookEnv)
    requires env.listing.Ok? ==> Enumerates(env.listing.value, cluster.packages.Keys)
    modifies cluster, cluster.helm, cluster.helm.secretAuth
    ensures cluster.Snapshot() ==
            Packages.Reconcile(old(cluster.Snapshot()), name, Seen(env, old(cluster.helm.secretAuth.data), b))
  {
    if env.getError.Some? { return; }
    if name in cluster.packages {
      ReconcileStored(cluster, name, env, b);
    } else {
      ReconcileDeleted(cluster, name, env, b);
    }
  }

  method ReconcileDeleted(cluster: Cluster, name: string, env: Env, b: BookEnv)
    requires env.getError.None? && name !in cluster.packages
    requires env.listing.Ok? ==> Enumerates(env.listing.value, cluster.packages.Keys)
    modifies cluster, cluster.helm, cluster.helm.secretAuth
    ensures cluster.Snapshot() ==
            Packages.Reconcile(old(cluster.Snapshot()), name, Seen(env, old(cluster.helm.secretAuth.data), b))
  {
    hide TurnOf;
    // A status update of a deleted object is refused, so the answer of Process is not used.
    var mc := new ManagerContext(name, cluster, SetState(NewPackage(EMPTY_SPEC), Uninstalling));
    var store := mc.Process(env, b);
  }

  method ReconcileStored(cluster: Cluster, name: string, env: Env, b: BookEnv)
    requires env.getError.None? && name in cluster.packages
    requires env.listing.Ok? ==> Enumerates(env.listing.value, cluster.packages.Keys)
    modifies cluster, cluster.helm, cluster.helm.secretAuth
    ensures cluster.Snapshot() ==
            Packages.Reconcile(old(cluster.Snapshot()), name, Seen(env, old(cluster.helm.secretAuth.data), b))
  {
    hide Packages.Process, Resolve, Runs.SoundTurn, Enumerates, PrintableTargetVersion, TargetVersion, WithBook;
    Runs.TurnIsSound(cluster.Snapshot(), name, Seen(env, cluster.helm.secretAuth.data, b));
    var p := cluster.packages[name];
    var r := ResolvePackage(cluster, p.spec);
    if r.Unresolved? {
      UpdateStatus(cluster, name, SetDetail(p, r.detail).status, env);
      return;
    }
    var mc := new ManagerContext(name, cluster, p);
    mc.pbc, mc.bundle, mc.version, mc.source := r.controller, r.bundle, r.version, r.source;
    var printable := PrintableVersion(r.source, TargetVersion(p.spec));
    mc.pkg := p.(status := p.status.(targetVersion := printable));
    var store := mc.Process(env, b);
    if store {
      UpdateStatus(cluster, name, mc.pkg.status, env);
    }
  }

  /** Writes the status subresource of a stored package. */
  method UpdateStatus(cluster: Cluster, name: string, status: PackageStatus, env: Env)
    requires name in cluster.packages
    modifies cluster`packages
    ensures cluster.packages == if env.statusWrite
                                then old(cluster.packages)[name := old(cluster.packages)[name].(status := status)]
                                else old(cluster.packages)
  {
    if env.statusWrite {
      cluster.packages := cluster.packages[name := cluster.packages[name].(status := status)];
    }
  }
}
