/** Liveness of the package controller: with an acyclic bundle and no failures,
    fair rounds of reconciles install everything, in a number of rounds bounded by
    the depth of the dependency relation, for every order of reconciling and listing. */
module Convergence {
  import opened Wrappers
  import opened Json
  import opened Strings
  import opened Bundles
  import opened Releases
  import opened Packages
  import opened Runs

  // ------------------------------------------------------------- assumptions

  /** Layers over the part of a bundle that stored packages lead to: the packages and versions
      in scope, and a rank below the depth for each package. */
  datatype Layers = Layers(scope: set<(BundlePackage, SourceVersion)>, rank: string -> nat, depth: nat)

  /** The scope is closed under dependencies, which are created in their latest version, and
      acyclic: each dependency is in the bundle, has a version, and lies on a lower layer. */
  ghost predicate Layered(b: PackageBundle, layers: Layers) {
    forall bp, v :: (bp, v) in layers.scope ==>
      && layers.rank(bp.name) < layers.depth
      && var deps := Resolved(b.packages, v.dependencies);
      && deps.Some?
      && forall d :: d in deps.value ==>
           && d.source.versions != [] && (d, d.source.versions[0]) in layers.scope
           && layers.rank(d.name) < layers.rank(bp.name)
  }

  /** What the package resolves to is in scope. */
  ghost predicate InScope(w: World, name: string, layers: Layers)
    requires name in w.packages && Resolve(w, w.packages[name].spec).Target?
  {
    var spec := w.packages[name].spec;
    (PackageNamed(w.bundle.value.packages, spec.packageName).value, Resolve(w, spec).version) in layers.scope
  }

  predicate PlainConfig(c: Config) {
    && c.Document?
    && (SOURCE_REGISTRY in c.values ==> c.values[SOURCE_REGISTRY].Str?)
    && IMAGE_PULL_SECRETS !in c.values
  }

  /** A package the controller can work on. */
  ghost predicate Workable(w: World, name: string)
    requires name in w.packages && w.bundle.Ok?
  {
    var p := w.packages[name];
    && Resolve(w, p.spec).Target?
    && PlainConfig(p.spec.config)
    && p.status.state in {Unset, Initializing, InstallingDependencies, StateEnum.Installing, Installed, Updating}
  }

  /** An object that bears the name of a bundle package is that package, so
      creating dependencies meets no name collision. */
  ghost predicate NoCollision(w: World)
    requires w.bundle.Ok?
  {
    forall bp :: bp in w.bundle.value.packages && bp.name in w.packages ==>
                   w.packages[bp.name].spec.packageName == bp.name
  }

  ghost predicate Calm(w: World, layers: Layers) {
    && IsValidNamespace(w.namespace) && w.controller.Ok? && w.bundle.Ok?
    && Layered(w.bundle.value, layers) && NoCollision(w)
    && forall n :: n in w.packages ==> Workable(w, n) && InScope(w, n, layers)
  }

  /** Answers without any failure; packages may be listed in any order. */
  predicate Smooth(env: Env) {
    && env.getError.None? && env.listing.Ok? && env.refused == {}
    && env.initializeError.None? && !env.lookupFails && env.statusWrite
    && env.install.chart.Ok? && env.install.lookupError.None? && env.install.deployError.None?
    && !env.install.addPanics
    && (DEFAULT_NAMESPACE in env.install.chart.value ==> env.install.chart.value[DEFAULT_NAMESPACE].Str?)
  }

  ghost predicate SmoothStep(w: World, e: Event) {
    e.Step? && e.name in w.packages && Admissible(w, e) && Smooth(e.env)
  }

  // ---------------------------------------------------------------- progress

  function Wanted(w: World, name: string): OCISource
    requires name in w.packages && Resolve(w, w.packages[name].spec).Target?
  {
    Resolve(w, w.packages[name].spec).source
  }

  /** The values the controller wants for a package. */
  function FinalValues(w: World, name: string): Values
    requires name in w.packages && w.controller.Ok? && PlainConfig(w.packages[name].spec.config)
  {
    var values := w.packages[name].spec.config.values;
    values[SOURCE_REGISTRY := Str(ImageRegistry(values, w.controller.value).value)]
  }

  /** Installed, from the source the bundle gives, with nothing to change. */
  ghost predicate Settled(w: World, name: string)
    requires name in w.packages && w.controller.Ok? && w.bundle.Ok? && Workable(w, name)
  {
    && w.packages[name].status.state == Installed
    && w.packages[name].status.source == Wanted(w, name)
    && !ConfigChanged(w.releases, name, FinalValues(w, name), false)
  }

  function Dependencies(w: World, name: string): Option<seq<BundlePackage>>
    requires name in w.packages && Resolve(w, w.packages[name].spec).Target?
  {
    var r := Resolve(w, w.packages[name].spec);
    Resolved(r.bundle.packages, r.version.dependencies)
  }

  ghost predicate Present(w: World, packageName: string) {
    exists n :: n in w.packages && w.packages[n].spec.packageName == packageName
  }

  ghost predicate DependenciesPresent(w: World, name: string)
    requires name in w.packages && Resolve(w, w.packages[name].spec).Target?
  {
    Dependencies(w, name).Some? ==> forall d :: d in Dependencies(w, name).value ==> Present(w, d.name)
  }

  /** Remaining moves of a package: 5 drifted, 4 before its dependencies, 3 with a
      dependency missing, 2 waiting for dependencies, 1 installing, 0 settled. */
  ghost function Phase(w: World, name: string): nat
    requires name in w.packages && w.controller.Ok? && w.bundle.Ok? && Workable(w, name)
  {
    match w.packages[name].status.state
    case Installed => if Settled(w, name) then 0 else 5
    case Installing => 1
    case InstallingDependencies => if DependenciesPresent(w, name) then 2 else 3
    case _ => 4
  }

  ghost function RankOf(w: World, name: string, layers: Layers): nat
    requires name in w.packages && w.bundle.Ok?
    requires PackageNamed(w.bundle.value.packages, w.packages[name].spec.packageName).Some?
  {
    layers.rank(PackageNamed(w.bundle.value.packages, w.packages[name].spec.packageName).value.name)
  }

  // ------------------------------------------------------- one smooth reconcile

  /** What a smooth reconcile leaves alone: bundle, controller, specs, and the
      status and release of all other packages. */
  ghost predicate Frames(w: World, w': World, name: string) {
    && w'.namespace == w.namespace && w'.controller == w.controller && w'.bundle == w.bundle
    && w.packages.Keys <= w'.packages.Keys
    && (forall n :: n in w.packages ==> w'.packages[n].spec == w.packages[n].spec)
    && (forall n :: n in w.packages && n != name ==> w'.packages[n] == w.packages[n])
    && forall n :: n != name ==> (n in w'.releases <==> n in w.releases) &&
                                 (n in w.releases ==> w'.releases[n] == w.releases[n])
  }

  /** New packages come only from a package that misses dependencies. */
  ghost predicate Births(w: World, w': World, name: string)
    requires name in w.packages && w.controller.Ok? && w.bundle.Ok? && Workable(w, name)
  {
    forall n :: n in w'.packages && n !in w.packages ==>
      && w'.packages[n] == NewPackage(DependencySpec(w.packages[name].spec, n))
      && Phase(w, name) == 3
      && Dependencies(w, name).Some?
      && exists d :: d in Dependencies(w, name).value && d.name == n
  }

  /** The packages stored after a dependency check by this package. */
  function Grown(w: World, name: string, order: seq<string>): map<string, Package>
    requires name in w.packages && Resolve(w, w.packages[name].spec).Target? && Dependencies(w, name).Some?
    requires forall n :: n in order ==> n in w.packages
  {
    WithDependencies(w.packages, Dependencies(w, name).value, Items(w.packages, order), w.packages[name].spec, {})
  }

  /** w' is w with these packages, up to the status of one of them. */
  ghost predicate IsWithPackages(w: World, w': World, name: string, packages: map<string, Package>) {
    && w'.namespace == w.namespace && w'.controller == w.controller && w'.bundle == w.bundle
    && w'.releases == w.releases
    && w'.packages.Keys == packages.Keys && name in packages
    && (forall n :: n in packages && n != name ==> w'.packages[n] == packages[n])
    && w'.packages[name].spec == packages[name].spec
  }

  /** The packages after the reconcile of a package in InstallingDependencies, spelled out. */
  lemma DependencyReconcile(w: World, name: string, env: Env)
    requires AtDependencyCheck(w, name, env)
    ensures IsWithPackages(w, Reconcile(w, name, env), name, Grown(w, name, env.listing.value))
  {
    GrownOnlyAdds(w, name, env.listing.value);
    CheckGrows(w, name, env);
    hide TurnOf, Grown, Resolve, IsValidNamespace, Enumerates, NoCollision, Workable, Dependencies;
  }

  lemma CheckGrows(w: World, name: string, env: Env)
    requires AtDependencyCheck(w, name, env)
    ensures var t := TurnOf(w, name, env);
            t.packages == Grown(w, name, env.listing.value) && t.releases == w.releases
  {
    TurnAtCheck(w, name, env);
    hide TurnOf, Resolve, NotReady, WithDependencies, Items, IsValidNamespace, Enumerates, NoCollision;
  }

  lemma GrownOnlyAdds(w: World, name: string, order: seq<string>)
    requires name in w.packages && Resolve(w, w.packages[name].spec).Target? && Dependencies(w, name).Some?
    requires forall n :: n in order ==> n in w.packages
    ensures OnlyAdds(w.packages, Grown(w, name, order))
  {
    hide Resolve, Dependencies, WithDependencies, Items, LastNamed;
    DependenciesOnlyAdd(w.packages, Dependencies(w, name).value, Items(w.packages, order),
                        w.packages[name].spec, {});
  }

  /** The package as Reconcile hands it to the manager. */
  function Handed(w: World, name: string): Package
    requires name in w.packages && Resolve(w, w.packages[name].spec).Target?
  {
    var p := w.packages[name];
    p.(status := p.status.(targetVersion := PrintableTargetVersion(Wanted(w, name), TargetVersion(p.spec))))
  }

  lemma TurnAtCheck(w: World, name: string, env: Env)
    requires AtDependencyCheck(w, name, env)
    ensures var r := Resolve(w, w.packages[name].spec);
            TurnOf(w, name, env) ==
            ProcessInstallingDependencies(w, Handed(w, name), name, r.bundle, r.version, env)
  {
    hide Resolve, ProcessInstallingDependencies, ProcessInstalling, ProcessInstalled;
  }

  ghost predicate AtDependencyCheck(w: World, name: string, env: Env) {
    && IsValidNamespace(w.namespace) && w.controller.Ok? && w.bundle.Ok? && NoCollision(w)
    && name in w.packages && Smooth(env) && Enumerates(env.listing.value, w.packages.Keys)
    && Workable(w, name) && Dependencies(w, name).Some?
    && w.packages[name].status.state == InstallingDependencies
  }

  lemma CheckFrames(w: World, name: string, env: Env)
    requires AtDependencyCheck(w, name, env)
    ensures Frames(w, Reconcile(w, name, env), name)
  {
    DependencyReconcile(w, name, env);
    GrownOnlyAdds(w, name, env.listing.value);
    FramesOfGrowth(w, Reconcile(w, name, env), name, Grown(w, name, env.listing.value));
  }

  lemma FramesOfGrowth(w: World, w': World, name: string, packages: map<string, Package>)
    requires name in w.packages && OnlyAdds(w.packages, packages) && IsWithPackages(w, w', name, packages)
    ensures Frames(w, w', name)
  {
  }

  lemma CheckMoves(w: World, name: string, env: Env)
    requires AtDependencyCheck(w, name, env)
    ensures name in Reconcile(w, name, env).packages
    ensures Reconcile(w, name, env).packages[name].status.state ==
            if forall d :: d in Dependencies(w, name).value ==> Ready(Items(w.packages, env.listing.value), d.name)
            then StateEnum.Installing else InstallingDependencies
  {
    TurnAtCheck(w, name, env);
    hide TurnOf, Resolve, NotReady, Ready, WithDependencies, Items, IsValidNamespace, Enumerates, NoCollision;
  }

  /** Where a package that a check added comes from. */
  lemma GrownIsNew(w: World, name: string, order: seq<string>, born: string) returns (d: BundlePackage)
    requires name in w.packages && Resolve(w, w.packages[name].spec).Target? && Dependencies(w, name).Some?
    requires Enumerates(order, w.packages.Keys)
    requires born in Grown(w, name, order) && born !in w.packages
    ensures Grown(w, name, order)[born] == NewPackage(DependencySpec(w.packages[name].spec, born))
    ensures d in Dependencies(w, name).value && d.name == born && !Present(w, born)
  {
    hide Resolve, Dependencies, WithDependencies, Items, LastNamed;
    DependenciesOnlyAdd(w.packages, Dependencies(w, name).value, Items(w.packages, order),
                        w.packages[name].spec, {});
    NotListedIsAbsent(w, order, born);
    d :| d in Dependencies(w, name).value && d.name == born;
  }

  lemma CheckBirths(w: World, name: string, env: Env)
    requires AtDependencyCheck(w, name, env)
    ensures Births(w, Reconcile(w, name, env), name)
  {
    hide Reconcile, Ready, Resolve, Dependencies, NotReady, Grown, NoCollision;
    DependencyReconcile(w, name, env);
    var w' := Reconcile(w, name, env);
    forall n | n in w'.packages && n !in w.packages
      ensures w'.packages[n] == NewPackage(DependencySpec(w.packages[name].spec, n))
      ensures Phase(w, name) == 3
      ensures exists d :: d in Dependencies(w, name).value && d.name == n
    {
      var d := GrownIsNew(w, name, env.listing.value, n);
    }
  }

  lemma CheckFeeds(w: World, name: string, env: Env, d: BundlePackage)
    requires AtDependencyCheck(w, name, env) && d in Dependencies(w, name).value
    ensures Present(Reconcile(w, name, env), d.name)
  {
    CheckFrames(w, name, env);
    CheckBirths(w, name, env);
    var w' := Reconcile(w, name, env);
    if Present(w, d.name) {
      hide Reconcile;
      var n :| n in w.packages && w.packages[n].spec.packageName == d.name;
      assert w'.packages[n].spec.packageName == d.name;
    } else {
      DependencyReconcile(w, name, env);
      NotListedIsAbsent(w, env.listing.value, d.name);
      DependencyIsInBundle(w, name, d);
      var items := Items(w.packages, env.listing.value);
      DependenciesAreAdded(w.packages, Dependencies(w, name).value, items, w.packages[name].spec, {}, d);
      assert w'.packages[d.name].spec.packageName == d.name;
    }
  }

  lemma DependencyIsInBundle(w: World, name: string, d: BundlePackage)
    requires name in w.packages && Resolve(w, w.packages[name].spec).Target?
    requires Dependencies(w, name).Some? && d in Dependencies(w, name).value
    ensures w.bundle.Ok? && d in w.bundle.value.packages
    ensures PackageNamed(w.bundle.value.packages, d.name) == Some(d)
  {
    var r := Resolve(w, w.packages[name].spec);
    var deps := Dependencies(w, name).value;
    var i :| 0 <= i < |deps| && deps[i] == d;
    ResolvedNameResolvesToItself(r.bundle.packages, r.version.dependencies[i]);
  }

  lemma NotListedIsAbsent(w: World, order: seq<string>, name: string)
    requires Enumerates(order, w.packages.Keys)
    ensures LastNamed(Items(w.packages, order), name).None? <==> !Present(w, name)
  {
    var items := Items(w.packages, order);
    if Present(w, name) {
      var n :| n in w.packages && w.packages[n].spec.packageName == name;
      assert n in order;
      var i :| 0 <= i < |order| && order[i] == n;
      assert items[i] in items;
    }
    if LastNamed(items, name).Some? {
      var i :| 0 <= i < |items| && items[i] == LastNamed(items, name).value;
      assert order[i] in order;
    }
  }

  ghost predicate AtTurn(w: World, name: string, env: Env) {
    && IsValidNamespace(w.namespace) && w.controller.Ok? && w.bundle.Ok?
    && name in w.packages && Workable(w, name)
    && Smooth(env) && Enumerates(env.listing.value, w.packages.Keys)
  }

  ghost predicate OnlyTouches(before: map<string, Release>, after: map<string, Release>, name: string) {
    forall n :: n != name ==> (n in after <==> n in before) && (n in before ==> after[n] == before[n])
  }

  /** A turn that creates nothing stores the status it asks to store, and that is all. */
  lemma QuietReconcile(w: World, name: string, env: Env)
    requires AtTurn(w, name, env)
    requires var t := TurnOf(w, name, env);
             && t.packages == w.packages && t.pkg.spec == w.packages[name].spec
             && OnlyTouches(w.releases, t.releases, name)
    ensures var t, w' := TurnOf(w, name, env), Reconcile(w, name, env);
            && Frames(w, w', name) && w'.packages.Keys == w.packages.Keys && w'.releases == t.releases
            && w'.packages[name].status == (if t.store then t.pkg.status else w.packages[name].status)
  {
    hide TurnOf, Workable, Enumerates;
  }

  lemma QueuedMoves(w: World, name: string, env: Env)
    requires AtTurn(w, name, env)
    requires w.packages[name].status.state in {Unset, Initializing, Updating}
    ensures var w' := Reconcile(w, name, env);
            && Frames(w, w', name) && w'.packages.Keys == w.packages.Keys
            && w'.packages[name].status.state == InstallingDependencies
  {
    hide ProcessInstallingDependencies, ProcessInstalling, ProcessInstalled, Resolve, Reconcile, Frames;
    QuietReconcile(w, name, env);
  }

  lemma InstallingTurn(w: World, name: string, env: Env)
    requires AtTurn(w, name, env) && w.packages[name].status.state == StateEnum.Installing
    ensures var t := TurnOf(w, name, env);
            && t.store && t.packages == w.packages && t.pkg.spec == w.packages[name].spec
            && t.pkg.status.state == Installed && t.pkg.status.source == Wanted(w, name)
            && var (releases, done) := Releases.Installing(w.releases, name, w.packages[name].spec.targetNamespace,
                                                           FinalValues(w, name), env.install);
            t.releases == releases && done == Completed
  {
    hide ProcessInstallingDependencies, ProcessInstalled, Resolve, Enumerates;
  }

  lemma InstallingMoves(w: World, name: string, env: Env)
    requires AtTurn(w, name, env) && w.packages[name].status.state == StateEnum.Installing
    ensures var w' := Reconcile(w, name, env);
            && Frames(w, w', name) && w'.packages.Keys == w.packages.Keys
            && w'.packages[name].status.state == Installed
            && w'.packages[name].status.source == Wanted(w, name)
            && !ConfigChanged(w'.releases, name, FinalValues(w, name), false)
  {
    hide TurnOf, Reconcile, Resolve, Enumerates, ConfigChanged, Frames;
    InstallingTurn(w, name, env);
    DriftAfterInstall(w.releases, name, w.packages[name].spec.targetNamespace, FinalValues(w, name), env.install);
    QuietReconcile(w, name, env);
  }

  lemma InstalledMoves(w: World, name: string, env: Env)
    requires AtTurn(w, name, env) && w.packages[name].status.state == Installed
    ensures var w' := Reconcile(w, name, env);
            && Frames(w, w', name) && w'.packages.Keys == w.packages.Keys
            && (!Settled(w, name) ==> w'.packages[name].status.state == Updating)
  {
    hide ProcessInstallingDependencies, ProcessInstalling, Resolve, Enumerates, ConfigChanged, Reconcile, Frames;
    QuietReconcile(w, name, env);
  }

  /** The drift fixpoint: reconciling a settled package changes nothing at all. */
  lemma SettledStoresNothing(w: World, name: string, env: Env)
    requires AtTurn(w, name, env) && Settled(w, name)
    ensures Reconcile(w, name, env) == w
  {
    hide ProcessInstallingDependencies, ProcessInstalling, Resolve, Enumerates, ConfigChanged;
  }

  /** A package about to be installed with these values. */
  ghost predicate AtInstall(w: World, name: string, env: Env, values: Values) {
    && IsValidNamespace(w.namespace) && name in w.packages && Resolve(w, w.packages[name].spec).Target?
    && w.packages[name].status.state == StateEnum.Installing
    && w.packages[name].spec.config.Document?
    && w.controller.Ok? && ImageRegistry(w.packages[name].spec.config.values, w.controller.value).Some?
    && values == w.packages[name].spec.config.values
                 [SOURCE_REGISTRY := Str(ImageRegistry(w.packages[name].spec.config.values, w.controller.value).value)]
    && Smooth(env) && Enumerates(env.listing.value, w.packages.Keys)
  }

  lemma AfterInstall(w: World, name: string, env: Env, values: Values)
    requires AtInstall(w, name, env, values)
    ensures var w' := Reconcile(w, name, env);
            && SameTarget(w, w', name) && w'.namespace == w.namespace && w'.packages.Keys == w.packages.Keys
            && w'.packages[name].status.state == Installed
            && w'.packages[name].status.source == Wanted(w, name)
            && var (releases, done) := Releases.Installing(w.releases, name, w.packages[name].spec.targetNamespace,
                                                           values, env.install);
            w'.releases == releases && done == Completed
  {
    hide ProcessInstallingDependencies, ProcessInstalled, Resolve, Enumerates;
  }

  lemma InstalledStep(w: World, name: string, env: Env, values: Values)
    requires IsValidNamespace(w.namespace) && name in w.packages && Resolve(w, w.packages[name].spec).Target?
    requires w.packages[name].status.state == Installed && w.packages[name].status.source == Wanted(w, name)
    requires w.packages[name].spec.config.Document? && w.controller.Ok?
    requires ImageRegistry(w.packages[name].spec.config.values, w.controller.value).Some?
    requires values == w.packages[name].spec.config.values
               [SOURCE_REGISTRY := Str(ImageRegistry(w.packages[name].spec.config.values, w.controller.value).value)]
    requires Smooth(env) && Enumerates(env.listing.value, w.packages.Keys)
    ensures var w' := Reconcile(w, name, env);
            if ConfigChanged(w.releases, name, values, false)
            then name in w'.packages && w'.packages[name].status.state == Updating
            else w' == w
  {
    hide ProcessInstallingDependencies, ProcessInstalling, Resolve, Enumerates, ConfigChanged;
  }

  /** The drift fixpoint, exactly: the step after a successful install leaves everything alone
      if the configuration names no pull secrets of its own, and starts all over again otherwise. */
  lemma DriftFixpointIff(w: World, name: string, env: Env, next: Env, values: Values)
    requires AtInstall(w, name, env, values) && Smooth(next) && Enumerates(next.listing.value, w.packages.Keys)
    ensures var w1 := Reconcile(w, name, env);
            && name in w1.packages && w1.packages[name].status.state == Installed
            && w1.packages.Keys == w.packages.Keys
            && var w2 := Reconcile(w1, name, next);
            if IMAGE_PULL_SECRETS in values && values[IMAGE_PULL_SECRETS] != PULL_SECRETS
            then name in w2.packages && w2.packages[name].status.state == Updating
            else w2 == w1
  {
    hide Reconcile, Resolve, ConfigChanged, Enumerates, Releases.Installing;
    AfterInstall(w, name, env, values);
    var w1 := Reconcile(w, name, env);
    TargetIsStable(w, w1, name);
    DriftAfterInstall(w.releases, name, w.packages[name].spec.targetNamespace, values, env.install);
    InstalledStep(w1, name, next, values);
  }

  // ------------------------------------------------------------------ phases

  /** All packages that name a dependency are installed. */
  ghost predicate AllInstalled(w: World, name: string)
    requires name in w.packages && Resolve(w, w.packages[name].spec).Target?
  {
    Dependencies(w, name).Some? ==>
      forall d, n :: d in Dependencies(w, name).value && n in w.packages && w.packages[n].spec.packageName == d.name ==>
                       w.packages[n].status.state == Installed
  }

  ghost predicate SameTarget(w: World, w': World, name: string)
    requires name in w.packages
  {
    && w'.controller == w.controller && w'.bundle == w.bundle
    && name in w'.packages && w'.packages[name].spec == w.packages[name].spec
  }

  lemma TargetIsStable(w: World, w': World, name: string)
    requires name in w.packages && SameTarget(w, w', name)
    ensures Resolve(w', w'.packages[name].spec) == Resolve(w, w.packages[name].spec)
  {
  }

  lemma PresenceIsStable(w: World, w': World, name: string)
    requires w.packages.Keys <= w'.packages.Keys
    requires forall n :: n in w.packages ==> w'.packages[n].spec == w.packages[n].spec
    requires Present(w, name)
    ensures Present(w', name)
  {
    var n :| n in w.packages && w.packages[n].spec.packageName == name;
    assert w'.packages[n].spec.packageName == name;
  }

  lemma ReadyWhenInstalled(w: World, name: string, order: seq<string>, d: BundlePackage)
    requires Enumerates(order, w.packages.Keys)
    requires name in w.packages && Resolve(w, w.packages[name].spec).Target?
    requires Dependencies(w, name).Some? && d in Dependencies(w, name).value
    requires DependenciesPresent(w, name) && AllInstalled(w, name)
    ensures Ready(Items(w.packages, order), d.name)
  {
    hide Resolve, Dependencies;
    NotListedIsAbsent(w, order, d.name);
    var items := Items(w.packages, order);
    var i :| 0 <= i < |items| && items[i] == LastNamed(items, d.name).value;
    assert order[i] in order;
  }

  lemma DependenciesResolve(w: World, name: string, layers: Layers)
    requires Calm(w, layers) && name in w.packages
    ensures Dependencies(w, name).Some?
    ensures forall d :: d in Dependencies(w, name).value ==>
              && layers.rank(d.name) < RankOf(w, name, layers)
              && d.source.versions != [] && (d, d.source.versions[0]) in layers.scope
  {
    hide Resolve;
  }

  /** A dependency check leaves a package waiting or installing. */
  lemma CheckPhase(w: World, name: string, env: Env)
    requires AtDependencyCheck(w, name, env)
    ensures var w' := Reconcile(w, name, env);
            && Frames(w, w', name) && Workable(w', name) && Phase(w', name) <= 2
  {
    hide Reconcile, Resolve, Dependencies, Ready, Items, NoCollision, Present, Smooth, Enumerates, PlainConfig, Phase;
    var w' := Reconcile(w, name, env);
    CheckFrames(w, name, env);
    CheckMoves(w, name, env);
    CheckFeedsAll(w, name, env);
    TargetIsStable(w, w', name);
    SameDependencies(w, w', name);
    PhaseAfterCheck(w', name);
  }

  lemma SameDependencies(w: World, w': World, name: string)
    requires name in w.packages && SameTarget(w, w', name)
    requires Resolve(w, w.packages[name].spec).Target? && Resolve(w', w'.packages[name].spec).Target?
    requires Resolve(w', w'.packages[name].spec) == Resolve(w, w.packages[name].spec)
    ensures Dependencies(w', name) == Dependencies(w, name)
  {
    hide Resolve;
  }

  lemma PhaseAfterCheck(w: World, name: string)
    requires name in w.packages && w.controller.Ok? && w.bundle.Ok? && Workable(w, name)
    requires w.packages[name].status.state in {StateEnum.Installing, InstallingDependencies}
    requires DependenciesPresent(w, name)
    ensures Phase(w, name) <= 2
  {
    hide Resolve, DependenciesPresent;
  }

  lemma CheckFeedsAll(w: World, name: string, env: Env)
    requires AtDependencyCheck(w, name, env)
    ensures forall d :: d in Dependencies(w, name).value ==> Present(Reconcile(w, name, env), d.name)
  {
    hide Reconcile, Present, Resolve, Smooth, Enumerates, NoCollision;
    forall d | d in Dependencies(w, name).value ensures Present(Reconcile(w, name, env), d.name) {
      CheckFeeds(w, name, env, d);
    }
  }

  /** With everything it needs installed, the check passes. */
  lemma CheckPasses(w: World, name: string, env: Env)
    requires AtDependencyCheck(w, name, env) && DependenciesPresent(w, name) && AllInstalled(w, name)
    ensures var w' := Reconcile(w, name, env);
            name in w'.packages && w'.packages[name].status.state == StateEnum.Installing
  {
    hide Reconcile, Resolve, Ready, Items, NoCollision, AllInstalled, DependenciesPresent;
    CheckMoves(w, name, env);
    forall d | d in Dependencies(w, name).value ensures Ready(Items(w.packages, env.listing.value), d.name) {
      ReadyWhenInstalled(w, name, env.listing.value, d);
    }
  }

  lemma OtherStatesPhase(w: World, name: string, env: Env)
    requires AtTurn(w, name, env) && w.packages[name].status.state != InstallingDependencies
    ensures var w' := Reconcile(w, name, env);
            && Frames(w, w', name) && Workable(w', name) && w'.packages.Keys == w.packages.Keys
            && (Phase(w, name) == 0 ==> w' == w)
            && (Phase(w, name) != 0 ==> Phase(w', name) < Phase(w, name))
  {
    hide Reconcile, Resolve, ConfigChanged;
    var w' := Reconcile(w, name, env);
    match w.packages[name].status.state {
      case Installing =>
        InstallingMoves(w, name, env);
        TargetIsStable(w, w', name);
      case Installed =>
        InstalledMoves(w, name, env);
        if Settled(w, name) { SettledStoresNothing(w, name, env); }
        TargetIsStable(w, w', name);
      case _ =>
        QueuedMoves(w, name, env);
        TargetIsStable(w, w', name);
    }
  }

  /** A waiting package moves on exactly when all it needs is installed. */
  lemma CheckAdvances(w: World, name: string, env: Env)
    requires AtDependencyCheck(w, name, env)
    ensures var w' := Reconcile(w, name, env);
            && Workable(w', name)
            && Phase(w', name) <= 2 <= Phase(w, name)
            && (Phase(w, name) == 2 && AllInstalled(w, name) ==> Phase(w', name) == 1)
  {
    CheckPhase(w, name, env);
    hide Reconcile, Settled, Resolve, AllInstalled, Workable, Frames, Smooth, Enumerates, NoCollision;
    if DependenciesPresent(w, name) && AllInstalled(w, name) { CheckPasses(w, name, env); }
  }

  lemma WaitingPhase(w: World, name: string, env: Env, layers: Layers)
    requires Calm(w, layers) && name in w.packages && w.packages[name].status.state == InstallingDependencies
    requires Smooth(env) && Enumerates(env.listing.value, w.packages.Keys)
    ensures var w' := Reconcile(w, name, env);
            && Frames(w, w', name) && Births(w, w', name) && Workable(w', name)
            && Phase(w', name) <= Phase(w, name)
            && (Phase(w, name) !in {0, 2} ==> Phase(w', name) < Phase(w, name))
            && (Phase(w, name) == 2 && AllInstalled(w, name) ==> Phase(w', name) == 1)
            && (Phase(w, name) == 0 ==> w' == w)
  {
    hide Reconcile, Frames, Births, Resolve, DependenciesPresent, AllInstalled, Layered, NoCollision, Smooth,
         Enumerates, PlainConfig, InScope;
    DependenciesResolve(w, name, layers);
    CheckPhase(w, name, env);
    CheckBirths(w, name, env);
    CheckAdvances(w, name, env);
    PhaseWaiting(w, name);
  }

  lemma PhaseWaiting(w: World, name: string)
    requires name in w.packages && w.controller.Ok? && w.bundle.Ok? && Workable(w, name)
    requires w.packages[name].status.state == InstallingDependencies
    ensures Phase(w, name) in {2, 3}
  {
  }

  /** What one smooth reconcile does to the phase of the package it is about. */
  lemma OwnPhase(w: World, name: string, env: Env, layers: Layers)
    requires Calm(w, layers) && name in w.packages
    requires Smooth(env) && Enumerates(env.listing.value, w.packages.Keys)
    ensures var w' := Reconcile(w, name, env);
            && Frames(w, w', name) && Births(w, w', name) && Workable(w', name)
            && Phase(w', name) <= Phase(w, name)
            && (Phase(w, name) !in {0, 2} ==> Phase(w', name) < Phase(w, name))
            && (Phase(w, name) == 2 && AllInstalled(w, name) ==> Phase(w', name) == 1)
            && (Phase(w, name) == 0 ==> w' == w)
  {
    hide Reconcile, Frames, Settled, Resolve, Phase, AllInstalled, Layered, NoCollision, Smooth, Enumerates,
         PlainConfig, InScope;
    if w.packages[name].status.state == InstallingDependencies {
      WaitingPhase(w, name, env, layers);
    } else {
      OtherStatesPhase(w, name, env);
      NotWaiting(w, name);
    }
  }

  lemma NotWaiting(w: World, name: string)
    requires name in w.packages && w.controller.Ok? && w.bundle.Ok? && Workable(w, name)
    requires w.packages[name].status.state != InstallingDependencies
    ensures Phase(w, name) != 2
  {
  }

  /** The phase of another package never grows. */
  lemma OtherPhase(w: World, w': World, name: string, other: string)
    requires w.controller.Ok? && w.bundle.Ok?
    requires Frames(w, w', name) && other in w.packages && other != name && Workable(w, other)
    ensures Workable(w', other) && Phase(w', other) <= Phase(w, other)
  {
    TargetIsStable(w, w', other);
    hide Resolve, Present, ConfigChanged, ImageRegistry, PlainConfig;
    if DependenciesPresent(w, other) && Dependencies(w, other).Some? {
      forall d | d in Dependencies(w, other).value ensures Present(w', d.name) {
        PresenceIsStable(w, w', d.name);
      }
    }
  }

  /** A new package for a bundle entry can be worked on. */
  lemma NewPackageIsWorkable(w: World, parent: PackageSpec, d: BundlePackage, layers: Layers)
    requires w.controller.Ok? && w.bundle.Ok? && PlainConfig(parent.config)
    requires PackageNamed(w.bundle.value.packages, d.name) == Some(d)
    requires d.source.versions != [] && (d, d.source.versions[0]) in layers.scope
    requires d.name in w.packages && w.packages[d.name] == NewPackage(DependencySpec(parent, d.name))
    ensures Workable(w, d.name) && InScope(w, d.name, layers) && Phase(w, d.name) == 4
    ensures RankOf(w, d.name, layers) == layers.rank(d.name)
  {
  }

  /** A created dependency starts on a lower layer. */
  lemma BirthPhase(w: World, w': World, name: string, born: string, layers: Layers)
    requires Calm(w, layers) && name in w.packages
    requires Frames(w, w', name) && Births(w, w', name)
    requires born in w'.packages && born !in w.packages
    ensures Workable(w', born) && InScope(w', born, layers) && Phase(w', born) == 4 && Phase(w, name) == 3
    ensures RankOf(w', born, layers) < RankOf(w, name, layers)
    ensures w'.packages[born].spec.packageName == born
  {
    hide Settled, DependenciesPresent, NoCollision, Resolve, Dependencies, Phase, PackageNamed;
    DependenciesResolve(w, name, layers);
    var d :| d in Dependencies(w, name).value && d.name == born;
    DependencyIsInBundle(w, name, d);
    NewPackageIsWorkable(w', w.packages[name].spec, d, layers);
  }

  lemma CalmIsStable(w: World, name: string, env: Env, layers: Layers)
    requires Calm(w, layers) && name in w.packages
    requires Smooth(env) && Enumerates(env.listing.value, w.packages.Keys)
    ensures Calm(Reconcile(w, name, env), layers)
  {
    hide Reconcile, Phase, Resolve, PlainConfig, InScope, Layered, NoCollision;
    var w' := Reconcile(w, name, env);
    OwnPhase(w, name, env, layers);
    forall n | n in w'.packages ensures Workable(w', n) && InScope(w', n, layers) {
      if n !in w.packages {
        BirthPhase(w, w', name, n, layers);
      } else {
        if n != name { OtherPhase(w, w', name, n); }
        ScopeIsStable(w, w', n, layers);
      }
    }
    NoCollisionIsStable(w, w', name);
  }

  lemma ScopeIsStable(w: World, w': World, name: string, layers: Layers)
    requires name in w.packages && SameTarget(w, w', name) && w.bundle.Ok?
    requires Resolve(w, w.packages[name].spec).Target? && InScope(w, name, layers)
    ensures Resolve(w', w'.packages[name].spec).Target? && InScope(w', name, layers)
  {
  }

  lemma NoCollisionIsStable(w: World, w': World, name: string)
    requires name in w.packages && w.controller.Ok? && w.bundle.Ok? && NoCollision(w) && Workable(w, name)
    requires Frames(w, w', name) && Births(w, w', name)
    ensures NoCollision(w')
  {
    hide Phase, Resolve, Dependencies, Workable;
  }
}
