/** The package lifecycle: one step of the package controller over the objects of a
    namespace (pkg/packages/manager.go, controllers/package_controller.go,
    api/v1alpha1/package.go). */
module Packages {
  import opened Wrappers
  import opened Json
  import opened Strings
  import opened Bundles
  import opened Releases

  // ---------------------------------------------------------------- objects

  datatype StateEnum =
    | Unset | Initializing | Installing | InstallingDependencies | Installed
    | Updating | Uninstalling | Unknown
    | Unlisted(text: string)

  /** A configuration text, as the YAML parser sees it. */
  datatype Config = Document(values: Values) | Malformed(error: string)

  datatype PackageSpec =
    PackageSpec(packageName: string, packageVersion: string, config: Config, targetNamespace: string)

  /** The status detail, one constructor per message. */
  datatype Detail =
    | NoDetail
    | Failure(error: string)
    | NotInBundle(package: string, bundle: string)
    | VersionNotInBundle(package: string, version: string, bundle: string)
    | InvalidBundle(package: string, invalid: SourceVersion, bundle: string)
    | WaitingFor(dependencies: seq<string>)
    | DeprecatedNamespace
    | NamespacePrefix
    | UnknownState(state: StateEnum)

  datatype PackageStatus = PackageStatus(
    source: OCISource, currentVersion: string, targetVersion: string,
    state: StateEnum, detail: Detail, spec: PackageSpec)

  datatype Package = Package(spec: PackageSpec, status: PackageStatus)

  const EMPTY_SPEC := PackageSpec("", "", Document(map[]), "")
  const EMPTY_STATUS := PackageStatus(OCISource("", "", "", ""), "", "", Unset, NoDetail, EMPTY_SPEC)

  /** A package object as the API server stores it on creation: status is a subresource. */
  function NewPackage(spec: PackageSpec): Package {
    Package(spec, EMPTY_STATUS)
  }

  datatype Controller =
    Controller(defaultRegistry: string, defaultImageRegistry: string, createNamespace: bool)

  const PUBLIC_REGISTRY := "public.ecr.aws/eks-anywhere"
  const PUBLIC_IMAGE_REGISTRY := "783794618700.dkr.ecr.us-west-2.amazonaws.com"

  function GetDefaultRegistry(c: Controller): string {
    if c.defaultRegistry != "" then c.defaultRegistry else PUBLIC_REGISTRY
  }

  function GetDefaultImageRegistry(c: Controller): string {
    if c.defaultImageRegistry != "" then c.defaultImageRegistry else PUBLIC_IMAGE_REGISTRY
  }

  // ------------------------------------------------------------- namespaces

  const PACKAGE_NAMESPACE := "eksa-packages"
  const NAMESPACE_PREFIX := "eksa-packages-"

  predicate IsValidNamespace(namespace: string) {
    NAMESPACE_PREFIX <= namespace || namespace == PACKAGE_NAMESPACE
  }

  function GetClusterName(namespace: string): string {
    if NAMESPACE_PREFIX <= namespace then namespace[|NAMESPACE_PREFIX|..] else ""
  }

  // ------------------------------------------------------------------ world

  /** A call of the package driver, and how an install ended. */
  datatype DriverCall =
    | InstallCall(name: string, source: OCISource, values: Values, done: Done)
    | UninstallCall(name: string)

  /** What one namespace of the API server and the target cluster hold. The
      bundle and its controller are read through the client, which can fail. */
  datatype World = World(
    namespace: string,
    packages: map<string, Package>,
    controller: Result<Controller>,
    bundle: Result<PackageBundle>,
    releases: map<string, Release>,
    calls: seq<DriverCall>)

  /** Answers of the outside during one Reconcile. */
  datatype Env = Env(
    getError: Option<string>,         // reading the package, other than not-found
    listing: Result<seq<string>>,     // the order in which packages are listed
    refused: set<string>,             // package objects the API server refuses to create
    initializeError: Option<string>,  // PackageDriver.Initialize
    install: InstallEnv,
    uninstallError: Option<string>,
    lookupFails: bool,                // `helm get` in the drift check
    statusWrite: bool)                // whether the status update is accepted

  /** What a state function leaves behind: the package, whether to store its
      status, and the objects it touched. A panic stores nothing. */
  datatype Turn = Turn(pkg: Package, store: bool, packages: map<string, Package>,
                       releases: map<string, Release>, calls: seq<DriverCall>)

  function SetState(p: Package, s: StateEnum): Package {
    p.(status := p.status.(state := s))
  }

  function SetDetail(p: Package, d: Detail): Package {
    p.(status := p.status.(detail := d))
  }

  function SetSource(p: Package, s: OCISource): Package {
    p.(status := p.status.(source := s))
  }

  function CopySpec(p: Package): Package {
    p.(status := p.status.(spec := p.spec))
  }

  function Quiet(w: World, p: Package, store: bool): Turn {
    Turn(p, store, w.packages, w.releases, w.calls)
  }

  // -------------------------------------------------------- state functions

  /** The image registry put into the values; None is the failed type assertion. */
  function ImageRegistry(values: Values, c: Controller): Option<string> {
    if SOURCE_REGISTRY in values && values[SOURCE_REGISTRY] != Str("") then
      if values[SOURCE_REGISTRY].Str? then Some(values[SOURCE_REGISTRY].text) else None
    else Some(GetDefaultImageRegistry(c))
  }

  /** The last listed package with exactly this package name. */
  function LastNamed(items: seq<Package>, name: string): (r: Option<Package>)
    ensures r.Some? ==> r.value in items && r.value.spec.packageName == name
    ensures r.None? <==> forall p :: p in items ==> p.spec.packageName != name
  {
    if items == [] then None
    else if items[|items| - 1].spec.packageName == name then Some(items[|items| - 1])
    else LastNamed(items[..|items| - 1], name)
  }

  predicate IsLastNamed(items: seq<Package>, name: string, i: nat) {
    && i < |items| && items[i].spec.packageName == name
    && forall j :: i < j < |items| ==> items[j].spec.packageName != name
  }

  lemma {:induction false} LastNamedIsLast(items: seq<Package>, name: string, i: nat)
    requires IsLastNamed(items, name, i)
    ensures LastNamed(items, name) == Some(items[i])
  {
    if i < |items| - 1 { LastNamedIsLast(items[..|items| - 1], name, i); }
  }

  predicate Ready(items: seq<Package>, name: string) {
    LastNamed(items, name).Some? && LastNamed(items, name).value.status.state == Installed
  }

  /** Names of the dependencies that are not ready, in bundle order. */
  function NotReady(deps: seq<BundlePackage>, items: seq<Package>): (r: seq<string>)
    ensures r == [] <==> forall d :: d in deps ==> Ready(items, d.name)
  {
    if deps == [] then []
    else
      var d := deps[|deps| - 1];
      NotReady(deps[..|deps| - 1], items) + if Ready(items, d.name) then [] else [d.name]
  }

  /** The names waited for are those of the dependencies that are not ready. */
  lemma {:induction false} NotReadyNames(deps: seq<BundlePackage>, items: seq<Package>, name: string)
    ensures name in NotReady(deps, items) <==> exists d :: d in deps && d.name == name && !Ready(items, d.name)
  {
    hide Ready;
    if deps != [] {
      var n := |deps| - 1;
      NotReadyNames(deps[..n], items, name);
      assert deps == deps[..n] + [deps[n]];
    }
  }

  function DependencySpec(parent: PackageSpec, name: string): PackageSpec {
    PackageSpec(name, "", parent.config, parent.targetNamespace)
  }

  /** Stored packages after a package object was created for every dependency that no
      listed package names. The API server refuses a name that is taken. */
  function WithDependencies(packages: map<string, Package>, deps: seq<BundlePackage>, items: seq<Package>,
                            parent: PackageSpec, refused: set<string>): map<string, Package>
  {
    if deps == [] then packages
    else
      var d := deps[|deps| - 1];
      var before := WithDependencies(packages, deps[..|deps| - 1], items, parent, refused);
      if LastNamed(items, d.name).Some? || d.name in refused || d.name in before then before
      else before[d.name := NewPackage(DependencySpec(parent, d.name))]
  }

  /** Creating dependencies changes no stored package, and what it adds is an
      unlisted dependency, as a copy of its parent's settings. */
  lemma {:induction false} DependenciesOnlyAdd(packages: map<string, Package>, deps: seq<BundlePackage>,
                                               items: seq<Package>, parent: PackageSpec, refused: set<string>)
    ensures var r := WithDependencies(packages, deps, items, parent, refused);
            && packages.Keys <= r.Keys
            && (forall n :: n in packages ==> r[n] == packages[n])
            && forall n :: n in r && n !in packages ==>
                 && r[n].spec == PackageSpec(n, "", parent.config, parent.targetNamespace)
                 && r[n].status == EMPTY_STATUS && r[n].status.state == Unset
                 && LastNamed(items, n).None?
                 && exists d :: d in deps && d.name == n
  {
    if deps != [] {
      DependenciesOnlyAdd(packages, deps[..|deps| - 1], items, parent, refused);
      assert deps[|deps| - 1] in deps;
    }
  }

  /** Each dependency that no listed package names is stored afterwards, unless refused. */
  lemma {:induction false} DependenciesAreAdded(packages: map<string, Package>, deps: seq<BundlePackage>,
                                                items: seq<Package>, parent: PackageSpec, refused: set<string>,
                                                d: BundlePackage)
    requires d in deps && LastNamed(items, d.name).None? && d.name !in refused
    ensures d.name in WithDependencies(packages, deps, items, parent, refused)
  {
    if deps[|deps| - 1] != d {
      assert d in deps[..|deps| - 1];
      DependenciesAreAdded(packages, deps[..|deps| - 1], items, parent, refused, d);
    }
  }

  function Items(packages: map<string, Package>, order: seq<string>): (r: seq<Package>)
    requires forall n :: n in order ==> n in packages
    ensures |r| == |order| && forall i :: 0 <= i < |order| ==> r[i] == packages[order[i]]
  {
    seq(|order|, i requires 0 <= i < |order| => packages[order[i]])
  }

  function ProcessInstallingDependencies(w: World, p: Package, name: string, b: PackageBundle,
                                         v: SourceVersion, env: Env): Turn
    requires env.listing.Ok? ==> Enumerates(env.listing.value, w.packages.Keys)
  {
    match Resolved(b.packages, v.dependencies)
    case None => Quiet(w, SetDetail(p, InvalidBundle(name, v, b.name)), true)
    case Some(deps) =>
      match env.listing
      case Err(e) => Quiet(w, SetDetail(p, Failure(e)), true)
      case Ok(order) =>
        var items := Items(w.packages, order);
        var waiting := NotReady(deps, items);
        var packages := WithDependencies(w.packages, deps, items, p.spec, env.refused);
        var p' := if waiting != [] then SetDetail(p, WaitingFor(waiting))
                  else SetDetail(SetState(p, StateEnum.Installing), NoDetail);
        Turn(p', true, packages, w.releases, w.calls)
  }

  function WithRegistry(source: OCISource, registry: string): OCISource {
    if source.registry == "" then source.(registry := registry) else source
  }

  function ProcessInstalling(w: World, p: Package, name: string, c: Controller, source: OCISource, env: Env): Turn {
    var p1 := SetSource(p, source);
    match p.spec.config
    case Malformed(e) => Quiet(w, SetDetail(p1, Failure(e)), true)
    case Document(values) =>
      match ImageRegistry(values, c)
      case None => Quiet(w, p1, false)
      case Some(registry) =>
        if env.initializeError.Some? then
          Quiet(w, SetDetail(p1, Failure(env.initializeError.value)), true)
        else
          var final := values[SOURCE_REGISTRY := Str(registry)];
          Deploy(w, p1, name, WithRegistry(source, GetDefaultRegistry(c)), final, env)
  }

  /** The call of the driver and what becomes of the package. */
  function Deploy(w: World, p: Package, name: string, source: OCISource, values: Values, env: Env): Turn {
    var (releases, done) := Releases.Installing(w.releases, name, p.spec.targetNamespace, values, env.install);
    var calls := w.calls + [InstallCall(name, source, values, done)];
    match done
    case Panicked => Turn(p, false, w.packages, releases, calls)
    case Failed(e) => Turn(SetDetail(p, Failure(e)), true, w.packages, releases, calls)
    case Completed =>
      var detail := if GetClusterName(w.namespace) == "" then DeprecatedNamespace else NoDetail;
      var p1 := SetDetail(SetState(p, Installed), detail);
      var p2 := p1.(status := p1.status.(currentVersion := source.version));
      Turn(CopySpec(p2), true, w.packages, releases, calls)
  }

  function ProcessInstalled(w: World, p: Package, name: string, c: Controller, source: OCISource, env: Env): Turn {
    if p.status.source != source then Quiet(w, SetState(SetSource(p, source), Updating), true)
    else
      match p.spec.config
      case Malformed(e) => Quiet(w, SetDetail(p, Failure(e)), true)
      case Document(values) =>
        if env.initializeError.Some? then Quiet(w, SetDetail(p, Failure(env.initializeError.value)), true)
        else
          match ImageRegistry(values, c)
          case None => Quiet(w, p, false)
          case Some(registry) =>
            if ConfigChanged(w.releases, name, values[SOURCE_REGISTRY := Str(registry)], env.lookupFails)
            then Quiet(w, CopySpec(SetState(p, Updating)), true)
            else Quiet(w, p, false)
  }

  /** One turn of the manager for a package that resolved to a version of the bundle. */
  function Process(w: World, p: Package, name: string, c: Controller, b: PackageBundle,
                   v: SourceVersion, source: OCISource, env: Env): Turn
    requires env.listing.Ok? ==> Enumerates(env.listing.value, w.packages.Keys)
  {
    if !IsValidNamespace(w.namespace) then
      Quiet(w, SetState(SetDetail(p, NamespacePrefix), Unknown), p.status.state != Unknown)
    else
      match p.status.state
      case Unset | Initializing =>
        Quiet(w, CopySpec(SetState(SetSource(p, source), InstallingDependencies)), true)
      case Updating => Quiet(w, SetState(p, InstallingDependencies), true)
      case InstallingDependencies => ProcessInstallingDependencies(w, p, name, b, v, env)
      case Installing => ProcessInstalling(w, p, name, c, source, env)
      case Installed => ProcessInstalled(w, p, name, c, source, env)
      case Uninstalling => ProcessUninstalling(w, p, name, env)
      case Unknown => Quiet(w, p, false)
      case Unlisted(_) => Quiet(w, CopySpec(SetDetail(p, UnknownState(p.status.state))), true)
  }

  function ProcessUninstalling(w: World, p: Package, name: string, env: Env): Turn {
    if env.initializeError.Some? then Quiet(w, SetDetail(p, Failure(env.initializeError.value)), false)
    else
      var (releases, done) := Releases.Uninstalling(w.releases, name, env.uninstallError);
      var detail := if done.Failed? then Failure(done.error) else NoDetail;
      Turn(SetDetail(p, detail), false, w.packages, releases, w.calls + [UninstallCall(name)])
  }

  // -------------------------------------------------------------- reconcile

  /** What a package resolves to, or the detail of the early exit. */
  datatype Resolution =
    | Unresolved(detail: Detail)
    | Target(controller: Controller, bundle: PackageBundle, version: SourceVersion, source: OCISource)

  function TargetVersion(spec: PackageSpec): string {
    if spec.packageVersion == "" then LATEST else spec.packageVersion
  }

  function PrintableTargetVersion(source: OCISource, wanted: string): string {
    if wanted == LATEST then source.version + " (" + wanted + ")" else wanted
  }

  function Resolve(w: World, spec: PackageSpec): (r: Resolution)
    ensures r.Target? ==>
              && w.controller == Ok(r.controller) && w.bundle == Ok(r.bundle)
              && var bp := PackageNamed(r.bundle.packages, spec.packageName);
              && bp.Some? && r.version in bp.value.source.versions
              && r.source == GetOCISource(bp.value, r.version)
  {
    match w.controller
    case Err(e) => Unresolved(Failure(e))
    case Ok(c) =>
      match w.bundle
      case Err(e) => Unresolved(Failure(e))
      case Ok(b) =>
        match PackageNamed(b.packages, spec.packageName)
        case None => Unresolved(NotInBundle(spec.packageName, b.name))
        case Some(bp) =>
          match VersionNamed(bp.source.versions, TargetVersion(spec))
          case None => Unresolved(VersionNotInBundle(spec.packageName, TargetVersion(spec), b.name))
          case Some(v) => Target(c, b, v, GetOCISource(bp, v))
  }

  /** Exactly when a package resolves, to the first version selected of the first package
      named, and which detail the early exits give. */
  lemma ResolveIff(w: World, spec: PackageSpec)
    ensures var r := Resolve(w, spec);
            var wanted := if spec.packageVersion == "" then "latest" else spec.packageVersion;
            match w.controller
            case Err(e) => r == Unresolved(Failure(e))
            case Ok(c) =>
              match w.bundle
              case Err(e) => r == Unresolved(Failure(e))
              case Ok(b) =>
                && (r == Unresolved(NotInBundle(spec.packageName, b.name)) <==>
                    forall bp :: bp in b.packages ==> !EqualFold(bp.name, spec.packageName))
                && forall i: nat :: IsFirstNamed(b.packages, spec.packageName, i) ==>
                     var vs := b.packages[i].source.versions;
                     && (r == Unresolved(VersionNotInBundle(spec.packageName, wanted, b.name)) <==>
                         forall v :: v in vs ==> !Selects(v, wanted))
                     && forall j: nat :: IsFirstSelected(vs, wanted, j) ==>
                          r == Target(c, b, vs[j], OCISource(vs[j].name, b.packages[i].source.registry,
                                                             b.packages[i].source.repository, vs[j].digest))
  {
    hide EqualFold, Selects;
    if w.controller.Ok? && w.bundle.Ok? {
      var packages := w.bundle.value.packages;
      forall i: nat | IsFirstNamed(packages, spec.packageName, i)
        ensures PackageNamed(packages, spec.packageName) == Some(packages[i])
      {
        PackageNamedIsFirst(packages, spec.packageName, i);
      }
      forall i, j: nat | 0 <= i < |packages| && IsFirstSelected(packages[i].source.versions, TargetVersion(spec), j)
        ensures VersionNamed(packages[i].source.versions, TargetVersion(spec)) == Some(packages[i].source.versions[j])
      {
        VersionNamedIsFirst(packages[i].source.versions, TargetVersion(spec), j);
      }
    }
  }

  /** The turn one Reconcile takes for a stored package. */
  function TurnOf(w: World, name: string, env: Env): (t: Turn)
    requires name in w.packages
    requires env.listing.Ok? ==> Enumerates(env.listing.value, w.packages.Keys)
  {
    var p := w.packages[name];
    match Resolve(w, p.spec)
    case Unresolved(detail) => Quiet(w, SetDetail(p, detail), true)
    case Target(c, b, v, source) =>
      var p1 := p.(status := p.status.(targetVersion := PrintableTargetVersion(source, TargetVersion(p.spec))));
      Process(w, p1, name, c, b, v, source, env)
  }

  /** One Reconcile: read, resolve, process, and write the status back if asked to. */
  function Reconcile(w: World, name: string, env: Env): World
    requires env.listing.Ok? ==> Enumerates(env.listing.value, w.packages.Keys)
  {
    if env.getError.Some? then w
    else if name !in w.packages then
      if !IsValidNamespace(w.namespace) then w
      else
        var t := ProcessUninstalling(w, SetState(NewPackage(EMPTY_SPEC), Uninstalling), name, env);
        w.(releases := t.releases, calls := t.calls)
    else
      var t := TurnOf(w, name, env);
      var packages := if t.store && env.statusWrite
                      then t.packages[name := w.packages[name].(status := t.pkg.status)]
                      else t.packages;
      w.(packages := packages, releases := t.releases, calls := t.calls)
  }
}
