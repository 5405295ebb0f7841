/** Fair rounds of reconciles and the number of them it takes to install everything. */
module Rounds {
  import opened Wrappers
  import opened Strings
  import opened Bundles
  import opened Releases
  import opened Packages
  import opened Runs
  import opened Convergence

  /** Consecutive smooth reconciles, each of a package that exists at that point. */
  ghost predicate SmoothRun(w: World, es: seq<Event>)
    decreases |es|
  {
    es == [] || (SmoothStep(w, es[0]) && SmoothRun(Apply(w, es[0]), es[1..]))
  }

  ghost function Finish(w: World, es: seq<Event>): World
    requires SmoothRun(w, es)
    decreases |es|
  {
    if es == [] then w else Finish(Apply(w, es[0]), es[1..])
  }

  /** A round reconciles every package that exists when it starts, in any order,
      possibly repeatedly, and possibly packages created on the way. */
  ghost predicate IsRound(w: World, es: seq<Event>) {
    SmoothRun(w, es) && forall n :: n in w.packages ==> exists e :: e in es && e.Step? && e.name == n
  }

  ghost predicate AreRounds(w: World, rounds: seq<seq<Event>>)
    decreases |rounds|
  {
    rounds == [] || (IsRound(w, rounds[0]) && AreRounds(Finish(w, rounds[0]), rounds[1..]))
  }

  ghost function FinishAll(w: World, rounds: seq<seq<Event>>): World
    requires AreRounds(w, rounds)
    decreases |rounds|
  {
    if rounds == [] then w else FinishAll(Finish(w, rounds[0]), rounds[1..])
  }

  /** The phase a package of layer r has at most after t rounds. First, from the
      top layer down and three rounds a layer, every package gets its dependencies
      created; then, from the bottom up and two rounds a layer, every package settles. */
  function Target(depth: nat, t: nat, r: nat): nat {
    if t < 3 * depth then
      var done := t / 3;
      if r + done >= depth then 2
      else if r + done + 1 == depth then 5 - t % 3
      else 5
    else
      var settled := (t - 3 * depth) / 2;
      if r < settled then 0
      else if r == settled then 2 - (t - 3 * depth) % 2
      else 2
  }

  lemma TargetStep(depth: nat, t: nat, r: nat)
    ensures var now, next := Target(depth, t, r), Target(depth, t + 1, r);
            && now - 1 <= next <= now
            && (now == 2 && next == 1 ==> forall s :: 0 <= s < r ==> Target(depth, t, s) == 0)
  {
  }

  lemma TargetLeavesRoomForBirths(depth: nat, t: nat, parent: nat, born: nat)
    requires born < parent < depth && Target(depth, t, parent) >= 3
    ensures Target(depth, t + 1, born) >= 4
  {
  }

  /** Between round t and round t+1: todo are the packages still to be reconciled. */
  ghost predicate Bounded(w: World, layers: Layers, t: nat, todo: set<string>)
    requires Calm(w, layers)
  {
    forall n :: n in w.packages ==>
      Phase(w, n) <= Target(layers.depth, if n in todo then t else t + 1, RankOf(w, n, layers))
  }

  /** Dependencies lie on layers that are already settled when it matters. */
  lemma LowerLayersInstalled(w: World, name: string, layers: Layers, t: nat, todo: set<string>)
    requires Calm(w, layers) && Bounded(w, layers, t, todo) && name in w.packages
    requires forall s :: 0 <= s < RankOf(w, name, layers) ==> Target(layers.depth, t, s) == 0
    ensures AllInstalled(w, name)
  {
    hide Resolve, Target, Settled, NoCollision, Bounded, Layered, Dependencies;
    DependenciesResolve(w, name, layers);
    forall d, n | d in Dependencies(w, name).value && n in w.packages && w.packages[n].spec.packageName == d.name
      ensures w.packages[n].status.state == Installed
    {
      DependencyIsInBundle(w, name, d);
      LowPackageInstalled(w, n, layers, t, todo);
    }
  }

  lemma LowPackageInstalled(w: World, name: string, layers: Layers, t: nat, todo: set<string>)
    requires Calm(w, layers) && Bounded(w, layers, t, todo) && name in w.packages
    requires Target(layers.depth, t, RankOf(w, name, layers)) == 0
    ensures w.packages[name].status.state == Installed
  {
    hide Resolve, Target, Settled, NoCollision, Layered;
    TargetStep(layers.depth, t, RankOf(w, name, layers));
    assert Phase(w, name) == 0;
  }

  lemma OwnBound(w: World, e: Event, layers: Layers, t: nat, todo: set<string>)
    requires Calm(w, layers) && Bounded(w, layers, t, todo) && SmoothStep(w, e)
    ensures var w' := Apply(w, e);
            && Calm(w', layers) && e.name in w'.packages
            && Phase(w', e.name) <= Target(layers.depth, t + 1, RankOf(w', e.name, layers))
  {
    hide Target, Reconcile, Phase, AllInstalled, Settled, Resolve, Layered, NoCollision, Births, PlainConfig, InScope;
    CalmIsStable(w, e.name, e.env, layers);
    OwnPhase(w, e.name, e.env, layers);
    assert Apply(w, e) == Reconcile(w, e.name, e.env);
    var r := RankOf(w, e.name, layers);
    TargetStep(layers.depth, t, r);
    if Phase(w, e.name) == 2 && Target(layers.depth, t + 1, r) == 1 {
      LowerLayersInstalled(w, e.name, layers, t, todo);
    }
  }

  lemma BirthBound(w: World, w': World, name: string, born: string, layers: Layers, t: nat,
                   todo: set<string>)
    requires Calm(w, layers) && Bounded(w, layers, t, todo) && name in w.packages
    requires Frames(w, w', name) && Births(w, w', name)
    requires born in w'.packages && born !in w.packages
    ensures Workable(w', born) && Phase(w', born) <= Target(layers.depth, t + 1, RankOf(w', born, layers))
  {
    hide Target, Phase, Settled, Resolve, Layered, NoCollision;
    BirthPhase(w, w', name, born, layers);
    RankIsBelowDepth(w, name, layers);
    TargetStep(layers.depth, t, RankOf(w, name, layers));
    TargetLeavesRoomForBirths(layers.depth, t, RankOf(w, name, layers), RankOf(w', born, layers));
  }

  lemma StepKeepsBound(w: World, e: Event, layers: Layers, t: nat, todo: set<string>)
    requires Calm(w, layers) && Bounded(w, layers, t, todo) && SmoothStep(w, e)
    ensures Calm(Apply(w, e), layers)
    ensures Bounded(Apply(w, e), layers, t, todo - {e.name})
  {
    hide Target, Reconcile, Phase, AllInstalled, Settled, Resolve, Layered, NoCollision, Births;
    var w' := Apply(w, e);
    OwnBound(w, e, layers, t, todo);
    OwnPhase(w, e.name, e.env, layers);
    assert w' == Reconcile(w, e.name, e.env);
    forall n | n in w'.packages
      ensures Phase(w', n) <= Target(layers.depth, if n in todo - {e.name} then t else t + 1, RankOf(w', n, layers))
    {
      if n !in w.packages {
        BirthBound(w, w', e.name, n, layers, t, todo);
        TargetStep(layers.depth, t, RankOf(w', n, layers));
      } else if n != e.name {
        OtherPhase(w, w', e.name, n);
      }
    }
  }

  lemma RankIsBelowDepth(w: World, name: string, layers: Layers)
    requires Calm(w, layers) && name in w.packages
    ensures RankOf(w, name, layers) < layers.depth
  {
  }

  ghost function Names(es: seq<Event>): set<string> {
    set e | e in es && e.Step? :: e.name
  }

  lemma {:induction false} RunKeepsBound(w: World, es: seq<Event>, layers: Layers, t: nat,
                                         todo: set<string>)
    requires Calm(w, layers) && Bounded(w, layers, t, todo) && SmoothRun(w, es)
    ensures Calm(Finish(w, es), layers)
    ensures Bounded(Finish(w, es), layers, t, todo - Names(es))
    decreases |es|
  {
    hide Apply, Bounded, Calm;
    if es == [] {
      assert todo - Names(es) == todo;
    } else {
      StepKeepsBound(w, es[0], layers, t, todo);
      RunKeepsBound(Apply(w, es[0]), es[1..], layers, t, todo - {es[0].name});
      assert Names(es) == {es[0].name} + Names(es[1..]) by {
        assert forall e :: e in es <==> e == es[0] || e in es[1..];
      }
      assert todo - {es[0].name} - Names(es[1..]) == todo - Names(es);
    }
  }

  /** A round brings every package below the next bound. */
  lemma RoundAdvances(w: World, es: seq<Event>, layers: Layers, t: nat)
    requires Calm(w, layers) && Bounded(w, layers, t, w.packages.Keys) && IsRound(w, es)
    ensures var w' := Finish(w, es);
            Calm(w', layers) && Bounded(w', layers, t + 1, w'.packages.Keys)
  {
    hide Target, Phase, Finish, SmoothRun, Workable, Layered, NoCollision;
    RunKeepsBound(w, es, layers, t, w.packages.Keys);
    assert w.packages.Keys - Names(es) == {};
  }

  lemma {:induction false} RoundsAdvance(w: World, rounds: seq<seq<Event>>, layers: Layers, t: nat)
    requires Calm(w, layers) && Bounded(w, layers, t, w.packages.Keys) && AreRounds(w, rounds)
    ensures var w' := FinishAll(w, rounds);
            Calm(w', layers) && Bounded(w', layers, t + |rounds|, w'.packages.Keys)
    decreases |rounds|
  {
    hide Bounded, Calm, SmoothRun, Finish;
    if rounds != [] {
      RoundAdvances(w, rounds[0], layers, t);
      RoundsAdvance(Finish(w, rounds[0]), rounds[1..], layers, t + 1);
    }
  }

  /** Convergence: from every workable world whose packages lead into an acyclic part of the
      bundle, 5 rounds per layer settle every package, those created on the way included,
      and from then on no reconcile stores, creates or calls anything. */
  lemma Converges(w: World, rounds: seq<seq<Event>>, layers: Layers)
    requires Calm(w, layers) && AreRounds(w, rounds) && |rounds| >= 5 * layers.depth
    ensures var w' := FinishAll(w, rounds);
            && Calm(w', layers)
            && (forall n :: n in w'.packages ==> Settled(w', n))
            && forall e :: SmoothStep(w', e) ==> Apply(w', e) == w'
  {
    hide Resolve, Layered, NoCollision, Settled, AreRounds, FinishAll, Reconcile, PlainConfig, InScope, Bounded, Phase;
    BoundedAtFirst(w, layers);
    RoundsAdvance(w, rounds, layers, 0);
    var w' := FinishAll(w, rounds);
    forall n | n in w'.packages ensures Phase(w', n) == 0 && Settled(w', n) {
      SettledAtLast(w', layers, |rounds|, n);
    }
    forall e | SmoothStep(w', e) ensures Apply(w', e) == w' {
      OwnPhase(w', e.name, e.env, layers);
    }
  }

  lemma BoundedAtFirst(w: World, layers: Layers)
    requires Calm(w, layers)
    ensures Bounded(w, layers, 0, w.packages.Keys)
  {
    hide Resolve, Layered, NoCollision, PlainConfig, InScope, Phase, Target;
    forall n | n in w.packages ensures Phase(w, n) <= Target(layers.depth, 0, RankOf(w, n, layers)) {
      RankIsBelowDepth(w, n, layers);
      PhaseIsAtMostFive(w, n);
      TargetAtFirst(layers.depth, RankOf(w, n, layers));
    }
  }

  lemma PhaseIsAtMostFive(w: World, name: string)
    requires name in w.packages && w.controller.Ok? && w.bundle.Ok? && Workable(w, name)
    ensures Phase(w, name) <= 5
  {
  }

  lemma TargetAtFirst(depth: nat, r: nat)
    requires r < depth
    ensures Target(depth, 0, r) == 5
  {
  }

  lemma SettledAtLast(w: World, layers: Layers, t: nat, name: string)
    requires Calm(w, layers) && Bounded(w, layers, t, w.packages.Keys) && t >= 5 * layers.depth && name in w.packages
    ensures Phase(w, name) == 0 && Settled(w, name)
  {
    hide Resolve, Layered, NoCollision, Settled, PlainConfig, InScope, DependenciesPresent;
    RankIsBelowDepth(w, name, layers);
  }

  // -------------------------------------------------------------- feasibility

  /** Answers without any failure, listing packages in this order. */
  function SmoothAnswers(order: seq<string>): Env {
    Env(None, Ok(order), {}, None, InstallEnv(Ok(map[]), None, None, false, false, false), None, false, true)
  }

  lemma {:induction false} ListingExists(names: set<string>) returns (order: seq<string>)
    ensures Enumerates(order, names)
  {
    if names == {} {
      order := [];
    } else {
      var n :| n in names;
      var rest := ListingExists(names - {n});
      order := [n] + rest;
    }
  }

  lemma {:induction false} RoundExists(w: World, todo: seq<string>, layers: Layers)
    returns (es: seq<Event>)
    requires Calm(w, layers) && forall n :: n in todo ==> n in w.packages
    ensures SmoothRun(w, es) && forall n :: n in todo ==> exists e :: e in es && e.Step? && e.name == n
    decreases |todo|
  {
    hide Reconcile, Calm, Births, Workable, Phase, AllInstalled;
    if todo == [] {
      es := [];
    } else {
      var order := ListingExists(w.packages.Keys);
      var e := Step(todo[0], SmoothAnswers(order));
      CalmIsStable(w, e.name, e.env, layers);
      KeepsPackages(w, e, layers);
      var rest := RoundExists(Apply(w, e), todo[1..], layers);
      es := [e] + rest;
      assert es[0] == e && es[1..] == rest;
      forall n | n in todo ensures exists x :: x in es && x.Step? && x.name == n {
        if n == todo[0] {
          assert e in es;
        } else {
          assert n in todo[1..];
          var x :| x in rest && x.Step? && x.name == n;
          assert x in es;
        }
      }
    }
  }

  lemma KeepsPackages(w: World, e: Event, layers: Layers)
    requires Calm(w, layers) && SmoothStep(w, e)
    ensures w.packages.Keys <= Apply(w, e).packages.Keys
  {
    hide Reconcile, Calm, Births, Workable, Phase, AllInstalled;
    OwnPhase(w, e.name, e.env, layers);
  }

  /** Fair rounds exist from every calm world, in any number. */
  lemma {:induction false} RoundsExist(w: World, layers: Layers, count: nat)
    requires Calm(w, layers)
    ensures exists rounds :: AreRounds(w, rounds) && |rounds| == count
    decreases count
  {
    hide Calm, SmoothRun, Finish;
    if count == 0 {
      assert AreRounds(w, []);
    } else {
      var order := ListingExists(w.packages.Keys);
      var es := RoundExists(w, order, layers);
      RoundKeepsCalm(w, es, layers);
      RoundsExist(Finish(w, es), layers, count - 1);
      var rest :| AreRounds(Finish(w, es), rest) && |rest| == count - 1;
      assert ([es] + rest)[1..] == rest;
      assert AreRounds(w, [es] + rest);
    }
  }

  lemma {:induction false} RoundKeepsCalm(w: World, es: seq<Event>, layers: Layers)
    requires Calm(w, layers) && SmoothRun(w, es)
    ensures Calm(Finish(w, es), layers)
    decreases |es|
  {
    hide Calm, Reconcile;
    if es != [] {
      CalmIsStable(w, es[0].name, es[0].env, layers);
      RoundKeepsCalm(Apply(w, es[0]), es[1..], layers);
    }
  }
}
