/** Safety of the package controller over whole runs: any interleaving of
    reconciles, with any answers from outside, and of users, Helm and the
    bundle changing underneath. */
module Runs {
  import opened Wrappers
  import opened Json
  import opened Strings
  import opened Bundles
  import opened Releases
  import opened Packages

  /** A reconcile, or a change made by somebody else. Users cannot write a
      package's status: it is a subresource. */
  datatype Event =
    | Step(name: string, env: Env)
    | Create(name: string, spec: PackageSpec)
    | Edit(name: string, spec: PackageSpec)
    | Delete(name: string)
    | SetController(controller: Result<Controller>)
    | SetBundle(bundle: Result<PackageBundle>)
    | SetReleases(releases: map<string, Release>)

  ghost predicate Admissible(w: World, e: Event) {
    e.Step? && e.env.listing.Ok? ==> Enumerates(e.env.listing.value, w.packages.Keys)
  }

  function Apply(w: World, e: Event): World
    requires Admissible(w, e)
  {
    match e
    case Step(name, env) => Reconcile(w, name, env)
    case Create(name, spec) =>
      if name in w.packages then w else w.(packages := w.packages[name := NewPackage(spec)])
    case Edit(name, spec) =>
      if name in w.packages then w.(packages := w.packages[name := w.packages[name].(spec := spec)]) else w
    case Delete(name) => w.(packages := w.packages - {name})
    case SetController(c) => w.(controller := c)
    case SetBundle(b) => w.(bundle := b)
    case SetReleases(r) => w.(releases := r)
  }

  ghost predicate IsRun(ws: seq<World>, es: seq<Event>) {
    && |ws| == |es| + 1
    && forall i :: 0 <= i < |es| ==> Admissible(ws[i], es[i]) && ws[i + 1] == Apply(ws[i], es[i])
  }

  ghost predicate Fresh(w: World) {
    forall n :: n in w.packages ==> w.packages[n].status.state == Unset
  }

  // ------------------------------------------------------ closed state graph

  /** The moves a stored state can make, in a valid and in an invalid namespace. */
  predicate Edge(valid: bool, from: StateEnum, to: StateEnum) {
    from == to ||
    if !valid then to == Unknown
    else
      match from
      case Unset | Initializing | Updating => to == InstallingDependencies
      case InstallingDependencies => to == StateEnum.Installing
      case Installing => to == Installed
      case Installed => to == Updating
      case _ => false
  }

  /** What a turn may do to the package it is about: its spec stays, its state
      moves along an edge, and each of the moves that matter has its reason. */
  ghost predicate SoundTurn(w: World, p: Package, name: string, r: Resolution, env: Env, t: Turn)
    requires env.listing.Ok? ==> Enumerates(env.listing.value, w.packages.Keys)
  {
    && Edge(IsValidNamespace(w.namespace), p.status.state, t.pkg.status.state)
    && (r.Unresolved? ==> t.pkg.status.state == p.status.state && t.calls == w.calls)
    && (t.pkg.status.state == StateEnum.Installing != p.status.state ==> r.Target? && AllReady(w, r, env))
    && (t.pkg.status.state == Installed == p.status.state ==>
          t.pkg.status.source == p.status.source && t.pkg.status.currentVersion == p.status.currentVersion)
    && (t.pkg.status.state == Installed != p.status.state ==>
          && r.Target? && t.store
          && t.pkg.status.source == r.source && t.pkg.status.currentVersion == r.source.version
          && |t.calls| > |w.calls|
          && t.calls[|w.calls|].InstallCall? && t.calls[|w.calls|].name == name
          && t.calls[|w.calls|].done == Completed
          && t.calls[|w.calls|].source == WithRegistry(r.source, GetDefaultRegistry(r.controller)))
    && (!IsValidNamespace(w.namespace) ==> t.calls == w.calls)
    && (|t.calls| > |w.calls| && t.calls[|w.calls|].InstallCall? ==>
          t.calls[|w.calls|].name == name && p.status.state == StateEnum.Installing)
  }

  /** Every dependency of the resolved version was ready: the last listed package
      with exactly its name was Installed. */
  ghost predicate AllReady(w: World, r: Resolution, env: Env)
    requires env.listing.Ok? ==> Enumerates(env.listing.value, w.packages.Keys)
    requires r.Target?
  {
    && env.listing.Ok?
    && var deps := Resolved(r.bundle.packages, r.version.dependencies);
    && deps.Some?
    && forall d :: d in deps.value ==> Ready(Items(w.packages, env.listing.value), d.name)
  }

  /** A turn never changes another package: it only adds packages without a status. */
  ghost predicate OnlyAdds(before: map<string, Package>, after: map<string, Package>) {
    && before.Keys <= after.Keys
    && (forall n :: n in before ==> after[n] == before[n])
    && forall n :: n in after && n !in before ==> after[n].status == EMPTY_STATUS
  }

  lemma DependencyTurnIsSound(w: World, p: Package, name: string, r: Resolution, env: Env)
    requires r.Target? && p.status.state == InstallingDependencies && IsValidNamespace(w.namespace)
    requires env.listing.Ok? ==> Enumerates(env.listing.value, w.packages.Keys)
    ensures var t := ProcessInstallingDependencies(w, p, name, r.bundle, r.version, env);
            t.pkg.spec == p.spec && SoundTurn(w, p, name, r, env, t) && OnlyAdds(w.packages, t.packages)
  {
    var deps := Resolved(r.bundle.packages, r.version.dependencies);
    if deps.Some? && env.listing.Ok? {
      DependenciesOnlyAdd(w.packages, deps.value, Items(w.packages, env.listing.value), p.spec, env.refused);
    }
  }

  lemma InstallTurnIsSound(w: World, p: Package, name: string, r: Resolution, env: Env)
    requires r.Target? && p.status.state == StateEnum.Installing && IsValidNamespace(w.namespace)
    requires env.listing.Ok? ==> Enumerates(env.listing.value, w.packages.Keys)
    ensures var t := ProcessInstalling(w, p, name, r.controller, r.source, env);
            t.pkg.spec == p.spec && SoundTurn(w, p, name, r, env, t) && OnlyAdds(w.packages, t.packages)
  {
    hide Releases.Installing, AllReady, ImageRegistry, GetClusterName, Enumerates;
  }

  /** A turn without a driver call that stays out of Installing and Installed, or in them. */
  ghost predicate IsQuiet(w: World, p: Package, t: Turn) {
    && t.calls == w.calls && t.packages == w.packages && t.pkg.spec == p.spec
    && Edge(IsValidNamespace(w.namespace), p.status.state, t.pkg.status.state)
    && (t.pkg.status.state in {StateEnum.Installing, Installed} ==>
          && t.pkg.status.state == p.status.state && t.pkg.status.source == p.status.source
          && t.pkg.status.currentVersion == p.status.currentVersion)
  }

  lemma QuietTurnIsSound(w: World, p: Package, name: string, r: Resolution, env: Env, t: Turn)
    requires env.listing.Ok? ==> Enumerates(env.listing.value, w.packages.Keys)
    requires IsQuiet(w, p, t) && (r.Unresolved? ==> t.pkg.status.state == p.status.state)
    ensures SoundTurn(w, p, name, r, env, t) && OnlyAdds(w.packages, t.packages)
  {
    hide Edge, Enumerates, IsValidNamespace, AllReady;
  }

  lemma InstalledTurnIsQuiet(w: World, p: Package, name: string, c: Controller, source: OCISource, env: Env)
    requires p.status.state == Installed && IsValidNamespace(w.namespace)
    ensures IsQuiet(w, p, ProcessInstalled(w, p, name, c, source, env))
  {
    hide ConfigChanged, ImageRegistry;
  }

  /** The turns that wait, queue or give up make no driver call. */
  lemma OtherTurnIsQuiet(w: World, p: Package, name: string, r: Resolution, env: Env)
    requires env.listing.Ok? ==> Enumerates(env.listing.value, w.packages.Keys)
    requires r.Target?
    requires !IsValidNamespace(w.namespace) ||
             p.status.state !in {InstallingDependencies, StateEnum.Installing, Installed, Uninstalling}
    ensures IsQuiet(w, p, Process(w, p, name, r.controller, r.bundle, r.version, r.source, env))
  {
    hide ProcessInstallingDependencies, ProcessInstalling, ProcessInstalled, ProcessUninstalling, Enumerates;
  }

  lemma UninstallTurnIsSound(w: World, p: Package, name: string, r: Resolution, env: Env)
    requires r.Target? && p.status.state == Uninstalling && IsValidNamespace(w.namespace)
    requires env.listing.Ok? ==> Enumerates(env.listing.value, w.packages.Keys)
    ensures var t := ProcessUninstalling(w, p, name, env);
            t.pkg.spec == p.spec && SoundTurn(w, p, name, r, env, t) && OnlyAdds(w.packages, t.packages)
  {
    hide AllReady, Enumerates;
  }

  lemma ProcessIsSound(w: World, p: Package, name: string, r: Resolution, env: Env)
    requires env.listing.Ok? ==> Enumerates(env.listing.value, w.packages.Keys)
    requires r.Target?
    ensures var t := Process(w, p, name, r.controller, r.bundle, r.version, r.source, env);
            t.pkg.spec == p.spec && SoundTurn(w, p, name, r, env, t) && OnlyAdds(w.packages, t.packages)
  {
    hide ProcessInstallingDependencies, ProcessInstalling, ProcessInstalled, ProcessUninstalling, Enumerates, SoundTurn,
         IsValidNamespace;
    if IsValidNamespace(w.namespace) && p.status.state == InstallingDependencies {
      DependencyTurnIsSound(w, p, name, r, env);
    } else if IsValidNamespace(w.namespace) && p.status.state == StateEnum.Installing {
      InstallTurnIsSound(w, p, name, r, env);
    } else if IsValidNamespace(w.namespace) && p.status.state == Uninstalling {
      UninstallTurnIsSound(w, p, name, r, env);
    } else {
      if IsValidNamespace(w.namespace) && p.status.state == Installed {
        InstalledTurnIsQuiet(w, p, name, r.controller, r.source, env);
      } else {
        OtherTurnIsQuiet(w, p, name, r, env);
      }
      hide Process;
      QuietTurnIsSound(w, p, name, r, env, Process(w, p, name, r.controller, r.bundle, r.version, r.source, env));
    }
  }

  lemma TurnIsSound(w: World, name: string, env: Env)
    requires name in w.packages
    requires env.listing.Ok? ==> Enumerates(env.listing.value, w.packages.Keys)
    ensures var t := TurnOf(w, name, env);
            && t.pkg.spec == w.packages[name].spec
            && SoundTurn(w, w.packages[name], name, Resolve(w, w.packages[name].spec), env, t)
            && OnlyAdds(w.packages, t.packages)
  {
    hide Process, Resolve, AllReady, Enumerates, WithRegistry, GetDefaultRegistry, PrintableTargetVersion, Edge;
    var p := w.packages[name];
    var r := Resolve(w, p.spec);
    if r.Target? {
      var p1 := p.(status := p.status.(targetVersion := PrintableTargetVersion(r.source, TargetVersion(p.spec))));
      ProcessIsSound(w, p1, name, r, env);
    } else {
      assert IsQuiet(w, p, TurnOf(w, name, env)) by { StaysPut(IsValidNamespace(w.namespace), p.status.state); }
      QuietTurnIsSound(w, p, name, r, env, TurnOf(w, name, env));
    }
  }

  lemma StaysPut(valid: bool, s: StateEnum)
    ensures Edge(valid, s, s)
  {
  }

  /** Each event moves each stored package along an edge; a package that does
      not resolve keeps its state; a new package has none. */
  lemma EventFollowsEdge(w: World, e: Event, name: string)
    requires Admissible(w, e)
    requires name in Apply(w, e).packages
    ensures name !in w.packages ==> Apply(w, e).packages[name].status == EMPTY_STATUS
    ensures name in w.packages ==>
              var from, to := w.packages[name].status.state, Apply(w, e).packages[name].status.state;
              && Edge(IsValidNamespace(w.namespace), from, to)
              && (Resolve(w, w.packages[name].spec).Unresolved? ==> from == to)
              && (from != to ==> e.Step? && e.name == name)
  {
    hide TurnOf;
    if e.Step? && e.name in w.packages {
      TurnIsSound(w, e.name, e.env);
    }
  }

  ghost predicate Reachable(valid: bool, s: StateEnum) {
    if valid then s in {Unset, InstallingDependencies, StateEnum.Installing, Installed, Updating}
    else s in {Unset, Unknown}
  }

  /** In every run from fresh packages only five states are ever stored in a
      valid namespace; in any other namespace the driver is never called. */
  lemma {:induction false} ReachableStates(ws: seq<World>, es: seq<Event>, i: nat)
    requires IsRun(ws, es) && Fresh(ws[0]) && i < |ws|
    ensures ws[i].namespace == ws[0].namespace
    ensures var valid := ws[0].namespace == "eksa-packages" || "eksa-packages-" <= ws[0].namespace;
            && (forall n :: n in ws[i].packages ==> Reachable(valid, ws[i].packages[n].status.state))
            && (!valid ==> ws[i].calls == ws[0].calls)
  {
    if i > 0 {
      ReachableStates(ws, es, i - 1);
      forall n | n in ws[i].packages
        ensures Reachable(IsValidNamespace(ws[0].namespace), ws[i].packages[n].status.state)
      {
        EventFollowsEdge(ws[i - 1], es[i - 1], n);
      }
    }
  }

  /** From any start: a package found Unknown stays Unknown for as long as it exists. */
  lemma {:induction false} UnknownIsAbsorbing(ws: seq<World>, es: seq<Event>, name: string, i: nat, j: nat)
    requires IsRun(ws, es) && i <= j < |ws|
    requires forall k :: i <= k <= j ==> name in ws[k].packages
    requires ws[i].packages[name].status.state == Unknown
    ensures ws[j].packages[name].status.state == Unknown
  {
    hide Apply;
    if i < j {
      UnknownIsAbsorbing(ws, es, name, i, j - 1);
      assert ws[j] == Apply(ws[j - 1], es[j - 1]);
      EventFollowsEdge(ws[j - 1], es[j - 1], name);
    }
  }

  // ------------------------------------------------------- dependency safety

  /** A step in which the package's dependencies were found ready. */
  ghost predicate ChecksDependencies(w: World, e: Event, name: string) {
    && Admissible(w, e) && e.Step? && e.name == name && name in w.packages
    && w.packages[name].status.state == InstallingDependencies
    && var r := Resolve(w, w.packages[name].spec);
    && r.Target? && AllReady(w, r, e.env)
  }

  /** The driver is asked to install this package in this step. */
  ghost predicate CallsInstall(w: World, e: Event, name: string)
    requires Admissible(w, e)
  {
    && |Apply(w, e).calls| > |w.calls|
    && Apply(w, e).calls[|w.calls|].InstallCall?
    && Apply(w, e).calls[|w.calls|].name == name
  }

  /** A package enters Installing only through such a check. */
  lemma EntersInstallingThroughCheck(w: World, e: Event, name: string)
    requires Admissible(w, e)
    requires name in Apply(w, e).packages
    requires Apply(w, e).packages[name].status.state == StateEnum.Installing
    ensures (name in w.packages && w.packages[name].status.state == StateEnum.Installing)
            || ChecksDependencies(w, e, name)
  {
    hide TurnOf, Resolve;
    if e.Step? && e.name in w.packages {
      TurnIsSound(w, e.name, e.env);
    }
  }

  lemma InstallsOnlyWhenInstalling(w: World, e: Event, name: string)
    requires Admissible(w, e) && CallsInstall(w, e, name)
    ensures name in w.packages && w.packages[name].status.state == StateEnum.Installing
  {
    hide TurnOf, Resolve;
    if e.Step? && e.name in w.packages {
      TurnIsSound(w, e.name, e.env);
    }
  }

  lemma {:induction false} InstallingWasChecked(ws: seq<World>, es: seq<Event>, i: nat, name: string) returns (j: nat)
    requires IsRun(ws, es) && Fresh(ws[0]) && i < |ws|
    requires name in ws[i].packages && ws[i].packages[name].status.state == StateEnum.Installing
    ensures j < i && ChecksDependencies(ws[j], es[j], name)
    ensures forall k :: j < k <= i ==>
              name in ws[k].packages && ws[k].packages[name].status.state == StateEnum.Installing
  {
    hide Apply, ChecksDependencies;
    assert i > 0;
    assert ws[i] == Apply(ws[i - 1], es[i - 1]);
    EntersInstallingThroughCheck(ws[i - 1], es[i - 1], name);
    if ChecksDependencies(ws[i - 1], es[i - 1], name) {
      j := i - 1;
    } else {
      j := InstallingWasChecked(ws, es, i - 1, name);
    }
  }

  /** Every driver Install of a run has a dependency check earlier in the same
      package's history, with the package in state Installing ever since. */
  lemma InstallsAreChecked(ws: seq<World>, es: seq<Event>, i: nat, name: string)
    requires IsRun(ws, es) && Fresh(ws[0]) && i < |es|
    requires CallsInstall(ws[i], es[i], name)
    ensures exists j :: 0 <= j < i && ChecksDependencies(ws[j], es[j], name) &&
                        forall k :: j < k <= i ==>
                          name in ws[k].packages && ws[k].packages[name].status.state == StateEnum.Installing
  {
    hide Apply, ChecksDependencies;
    InstallsOnlyWhenInstalling(ws[i], es[i], name);
    var j := InstallingWasChecked(ws, es, i, name);
  }

  // ------------------------------------------------ installed version invariant

  /** The driver installed this package from this source, an empty registry
      being replaced by the controller's default. */
  ghost predicate InstallsFrom(w: World, e: Event, name: string, source: OCISource)
    requires Admissible(w, e)
  {
    && CallsInstall(w, e, name)
    && w.controller.Ok?
    && var call := Apply(w, e).calls[|w.calls|];
    && call.done == Completed
    && call.source == WithRegistry(source, GetDefaultRegistry(w.controller.value))
  }

  lemma EntersInstalledThroughInstall(w: World, e: Event, name: string)
    requires Admissible(w, e)
    requires name in Apply(w, e).packages
    requires Apply(w, e).packages[name].status.state == Installed
    ensures var status := Apply(w, e).packages[name].status;
            if name in w.packages && w.packages[name].status.state == Installed then
              && status.source == w.packages[name].status.source
              && status.currentVersion == w.packages[name].status.currentVersion
              && !CallsInstall(w, e, name)
            else
              InstallsFrom(w, e, name, status.source) && status.currentVersion == status.source.version
  {
    hide TurnOf;
    if e.Step? && e.name in w.packages {
      TurnIsSound(w, e.name, e.env);
    }
  }

  /** In every run from fresh packages, a package that is Installed reports the version
      of its source, and its last Install was of that source and succeeded. */
  lemma {:induction false} InstalledVersionIsSourceVersion(ws: seq<World>, es: seq<Event>, i: nat, name: string)
    requires IsRun(ws, es) && Fresh(ws[0]) && i < |ws|
    requires name in ws[i].packages && ws[i].packages[name].status.state == Installed
    ensures ws[i].packages[name].status.currentVersion == ws[i].packages[name].status.source.version
    ensures exists j :: 0 <= j < i && InstallsFrom(ws[j], es[j], name, ws[i].packages[name].status.source) &&
                        forall k :: j < k < i ==> !CallsInstall(ws[k], es[k], name)
  {
    hide Apply, InstallsFrom, CallsInstall;
    assert i > 0;
    assert ws[i] == Apply(ws[i - 1], es[i - 1]);
    EntersInstalledThroughInstall(ws[i - 1], es[i - 1], name);
    if name in ws[i - 1].packages && ws[i - 1].packages[name].status.state == Installed {
      InstalledVersionIsSourceVersion(ws, es, i - 1, name);
      var j :| 0 <= j < i - 1 && InstallsFrom(ws[j], es[j], name, ws[i].packages[name].status.source) &&
               forall k :: j < k < i - 1 ==> !CallsInstall(ws[k], es[k], name);
      assert forall k :: j < k < i ==> !CallsInstall(ws[k], es[k], name);
    }
  }

  // ---------------------------------------------------------------- deadlock

  predicate Names(knot: set<string>, name: string) {
    exists k :: k in knot && EqualFold(k, name)
  }

  /** Every version of every member needs a member, or cannot be resolved at all. */
  predicate Knotted(b: PackageBundle, knot: set<string>) {
    forall bp, v :: bp in b.packages && Names(knot, bp.name) && v in bp.source.versions ==>
                      var deps := Resolved(b.packages, v.dependencies);
                      deps.None? || exists d :: d in deps.value && Names(knot, d.name)
  }

  /** All bundles of the run are knotted, and no edit renames a package. */
  ghost predicate KeepsKnot(ws: seq<World>, es: seq<Event>, knot: set<string>)
    requires |ws| == |es| + 1
  {
    && (forall i :: 0 <= i < |ws| && ws[i].bundle.Ok? ==> Knotted(ws[i].bundle.value, knot))
    && forall i :: 0 <= i < |es| && es[i].Edit? && es[i].name in ws[i].packages ==>
                     es[i].spec.packageName == ws[i].packages[es[i].name].spec.packageName
  }

  ghost predicate Stuck(w: World, knot: set<string>) {
    forall n :: n in w.packages && Names(knot, w.packages[n].spec.packageName) ==>
                  w.packages[n].status.state !in {StateEnum.Installing, Installed}
  }

  lemma MemberResolvesToMember(b: PackageBundle, knot: set<string>, name: string)
    requires Names(knot, name) && PackageNamed(b.packages, name).Some?
    ensures Names(knot, PackageNamed(b.packages, name).value.name)
  {
    var k :| k in knot && EqualFold(k, name);
    assert EqualFold(k, PackageNamed(b.packages, name).value.name);
  }

  /** No check can pass for a member while all members are stuck. */
  lemma StuckFailsCheck(w: World, e: Event, name: string, knot: set<string>)
    requires w.bundle.Ok? ==> Knotted(w.bundle.value, knot)
    requires Stuck(w, knot)
    requires name in w.packages && Names(knot, w.packages[name].spec.packageName)
    ensures !ChecksDependencies(w, e, name)
  {
    var r := Resolve(w, w.packages[name].spec);
    if r.Target? && Admissible(w, e) && e.Step? && e.env.listing.Ok? {
      MemberResolvesToMember(r.bundle, knot, w.packages[name].spec.packageName);
      var deps := Resolved(r.bundle.packages, r.version.dependencies);
      if deps.Some? {
        var d :| d in deps.value && Names(knot, d.name);
        MemberIsNotReady(w, e.env.listing.value, d.name, knot);
      }
    }
  }

  lemma MemberIsNotReady(w: World, order: seq<string>, name: string, knot: set<string>)
    requires Enumerates(order, w.packages.Keys) && Stuck(w, knot) && Names(knot, name)
    ensures !Ready(Items(w.packages, order), name)
  {
    var items := Items(w.packages, order);
    if LastNamed(items, name).Some? {
      var i :| 0 <= i < |items| && items[i] == LastNamed(items, name).value;
      assert order[i] in order;
    }
  }

  /** Packages that need each other never get installed: in every run from
      fresh packages, no package naming a member reaches Installing or Installed. */
  lemma {:induction false} KnotNeverInstalls(ws: seq<World>, es: seq<Event>, knot: set<string>, i: nat)
    requires IsRun(ws, es) && Fresh(ws[0]) && KeepsKnot(ws, es, knot) && i < |ws|
    ensures Stuck(ws[i], knot)
  {
    if i > 0 {
      KnotNeverInstalls(ws, es, knot, i - 1);
      assert ws[i] == Apply(ws[i - 1], es[i - 1]);
      forall n | n in ws[i].packages && Names(knot, ws[i].packages[n].spec.packageName)
        ensures ws[i].packages[n].status.state !in {StateEnum.Installing, Installed}
      {
        MemberStaysStuck(ws[i - 1], es[i - 1], n, knot);
      }
    }
  }

  lemma MemberStaysStuck(w: World, e: Event, name: string, knot: set<string>)
    requires w.bundle.Ok? ==> Knotted(w.bundle.value, knot)
    requires Stuck(w, knot) && Admissible(w, e)
    requires name in Apply(w, e).packages && Names(knot, Apply(w, e).packages[name].spec.packageName)
    requires e.Edit? && e.name in w.packages ==> e.spec.packageName == w.packages[e.name].spec.packageName
    ensures Apply(w, e).packages[name].status.state !in {StateEnum.Installing, Installed}
  {
    EventFollowsEdge(w, e, name);
    if name in w.packages {
      EventKeepsPackageName(w, e, name);
      StuckFailsCheck(w, e, name, knot);
      hide *;
      if Apply(w, e).packages[name].status.state == StateEnum.Installing {
        EntersInstallingThroughCheck(w, e, name);
      }
    }
  }

  lemma EventKeepsPackageName(w: World, e: Event, name: string)
    requires Admissible(w, e) && name in w.packages && name in Apply(w, e).packages
    requires e.Edit? && e.name in w.packages ==> e.spec.packageName == w.packages[e.name].spec.packageName
    ensures Apply(w, e).packages[name].spec.packageName == w.packages[name].spec.packageName
  {
    hide TurnOf;
    if e.Step? && e.name in w.packages {
      TurnIsSound(w, e.name, e.env);
    }
  }
}
