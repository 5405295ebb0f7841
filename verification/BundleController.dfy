/** The bundle controller lifecycle (pkg/bundle/manager.go). */
module BundleController {
  import opened Wrappers
  import opened Bundles

  datatype ControllerState =
    | Blank | Active | UpgradeAvailable | Disconnected | Ignored | Unlisted(text: string)

  /** The controller's spec; settings stands for all fields this lifecycle only copies. */
  datatype ControllerSpec = ControllerSpec(activeBundle: string, settings: string)

  datatype ControllerStatus = ControllerStatus(state: ControllerState, detail: string, spec: ControllerSpec)

  /** What the API server stores: the controller's spec, its status subresource, and the bundles. */
  datatype Stored = Stored(spec: ControllerSpec, status: ControllerStatus, bundles: map<string, PackageBundle>)

  /** Answers of the outside during one ProcessBundleController. */
  datatype Answers = Answers(
    serverVersionError: Option<string>,
    latest: Result<PackageBundle>,
    listError: Option<string>,
    createLatestError: Option<string>,
    clusterError: Option<string>,       // config map, cluster namespace or secret
    download: Result<PackageBundle>,
    createActiveError: Option<string>,
    saveError: Option<string>,
    saveStatusError: Option<string>)

  // ------------------------------------------------------------ specification

  function WithStatus(s: Stored, status: ControllerStatus, a: Answers): Stored {
    if a.saveStatusError.Some? then s else s.(status := status)
  }

  /** Creating a bundle; the API server refuses a name that is taken. */
  function WithBundle(s: Stored, b: PackageBundle, error: Option<string>): Option<Stored> {
    if error.Some? || b.name in s.bundles then None else Some(s.(bundles := s.bundles[b.name := b]))
  }

  function Disconnect(s: Stored, error: string, a: Answers): Stored {
    if s.status.state in {Active, Blank}
    then WithStatus(s, s.status.(state := Disconnected, detail := error), a)
    else s
  }

  function Announcement(latest: string): string { latest + " available" }

  function Becomes(state: ControllerState, detail: string, s: Stored): ControllerStatus {
    ControllerStatus(state, detail, s.spec)
  }

  /** One ProcessBundleController over what is stored. listed are the bundles read before any is created. */
  function Step(s: Stored, a: Answers): Stored {
    if a.serverVersionError.Some? then Disconnect(s, a.serverVersionError.value, a)
    else if a.latest.Err? then Disconnect(s, a.latest.error, a)
    else if a.listError.Some? then s
    else
      var latest := a.latest.value;
      var listed := s.bundles.Keys;
      var created := if latest.name in listed then Some(s) else WithBundle(s, latest, a.createLatestError);
      if created.None? then s
      else Dispatch(created.value, latest.name, listed, a)
  }

  function Dispatch(s: Stored, latest: string, listed: set<string>, a: Answers): Stored {
    var active := s.spec.activeBundle;
    if active == "" then
      if a.saveError.Some? then s else s.(spec := s.spec.(activeBundle := latest))
    else
      match s.status.state
      case Active =>
        if a.clusterError.Some? then s
        else
          var restored := if active in listed then Some(s)
                          else if a.download.Err? then None
                          else WithBundle(s, a.download.value, a.createActiveError);
          if restored.None? then s
          else if latest == active then restored.value
          else WithStatus(restored.value, Becomes(UpgradeAvailable, Announcement(latest), s), a)
      case UpgradeAvailable =>
        if latest == active then WithStatus(s, Becomes(Active, "", s), a)
        else if s.status.detail != Announcement(latest)
        then WithStatus(s, Becomes(UpgradeAvailable, Announcement(latest), s), a)
        else s
      case _ => WithStatus(s, Becomes(Active, "", s), a)
  }

  // ------------------------------------------------------------------- safety

  /** One step never changes a non-empty active bundle, sets an empty one only to a
      stored name, and neither removes nor overwrites a stored bundle. */
  lemma StepIsSafe(s: Stored, a: Answers)
    ensures var s' := Step(s, a);
            && (s'.spec == s.spec ||
                (s.spec.activeBundle == "" && s'.spec == s.spec.(activeBundle := s'.spec.activeBundle)
                 && s'.spec.activeBundle in s'.bundles))
            && s.bundles.Keys <= s'.bundles.Keys
            && forall n :: n in s.bundles ==> s'.bundles[n] == s.bundles[n]
  {
  }

  /** When the cluster or the registry cannot be reached, spec and bundles stay, and a controller that was
      Active or new becomes Disconnected with that error, if the write is accepted. */
  lemma UnreachableDisconnects(s: Stored, a: Answers)
    requires a.serverVersionError.Some? || a.latest.Err?
    ensures var s' := Step(s, a);
            var error := if a.serverVersionError.Some? then a.serverVersionError.value else a.latest.error;
            && s'.spec == s.spec && s'.bundles == s.bundles
            && s'.status == if s.status.state in {Active, Blank} && a.saveStatusError.None?
                            then ControllerStatus(Disconnected, error, s.status.spec) else s.status
  {
  }

  /** Failures between there and the dispatch change nothing at all. */
  lemma EarlyFailuresChangeNothing(s: Stored, a: Answers)
    requires a.serverVersionError.None? && a.latest.Ok?
    requires a.listError.Some? || (a.latest.value.name !in s.bundles && a.createLatestError.Some?)
    ensures Step(s, a) == s
  {
  }

  /** A step of the controller, or a change made by somebody else. */
  datatype Event =
    | Process(answers: Answers)
    | EditSpec(spec: ControllerSpec)
    | DropBundle(name: string)
    | AddBundle(bundle: PackageBundle)

  function Apply(s: Stored, e: Event): Stored {
    match e
    case Process(a) => Step(s, a)
    case EditSpec(spec) => s.(spec := spec)
    case DropBundle(name) => s.(bundles := s.bundles - {name})
    case AddBundle(b) => if b.name in s.bundles then s else s.(bundles := s.bundles[b.name := b])
  }

  ghost predicate IsRun(ss: seq<Stored>, es: seq<Event>) {
    |ss| == |es| + 1 && forall i :: 0 <= i < |es| ==> ss[i + 1] == Apply(ss[i], es[i])
  }

  /** Over every run: the active bundle a user chose stays until a user edits the spec. */
  lemma {:induction false} ActiveBundleIsTheUsers(ss: seq<Stored>, es: seq<Event>, i: nat, j: nat)
    requires IsRun(ss, es) && i <= j < |ss|
    requires ss[i].spec.activeBundle != ""
    requires forall k :: i <= k < j ==> !es[k].EditSpec?
    ensures ss[j].spec == ss[i].spec
  {
    hide Step;
    if i < j {
      ActiveBundleIsTheUsers(ss, es, i, j - 1);
      assert ss[j] == Apply(ss[j - 1], es[j - 1]);
      if es[j - 1].Process? { StepIsSafe(ss[j - 1], es[j - 1].answers); }
    }
  }

  /** Over every run: a controller becomes Disconnected only in a step that cannot reach the cluster or the
      registry, from Active or from no state. */
  lemma DisconnectedWhenUnreachable(ss: seq<Stored>, es: seq<Event>, i: nat)
    requires IsRun(ss, es) && i < |es|
    requires ss[i + 1].status.state == Disconnected != ss[i].status.state
    ensures es[i].Process? && (es[i].answers.serverVersionError.Some? || es[i].answers.latest.Err?)
    ensures ss[i].status.state in {Active, Blank}
  {
    assert ss[i + 1] == Apply(ss[i], es[i]);
  }

  /** Over every run: a stored bundle stays as it is until somebody else drops it. */
  lemma {:induction false} BundlesAreKept(ss: seq<Stored>, es: seq<Event>, name: string, i: nat, j: nat)
    requires IsRun(ss, es) && i <= j < |ss| && name in ss[i].bundles
    requires forall k :: i <= k < j ==> es[k] != DropBundle(name)
    ensures name in ss[j].bundles && ss[j].bundles[name] == ss[i].bundles[name]
  {
    hide Step;
    if i < j {
      BundlesAreKept(ss, es, name, i, j - 1);
      assert ss[j] == Apply(ss[j - 1], es[j - 1]);
      if es[j - 1].Process? { StepIsSafe(ss[j - 1], es[j - 1].answers); }
    }
  }

  // -------------------------------------------------------------- convergence

  /** No failure, latest is this bundle, and a bundle downloaded for a tag is named by it. */
  predicate Smooth(s: Stored, a: Answers, latest: string) {
    && a.serverVersionError.None? && a.listError.None? && a.createLatestError.None? && a.clusterError.None?
    && a.createActiveError.None? && a.saveError.None? && a.saveStatusError.None?
    && a.latest.Ok? && a.latest.value.name == latest
    && (s.spec.activeBundle != "" ==> a.download.Ok? && a.download.value.name == s.spec.activeBundle)
  }

  predicate Settled(s: Stored, latest: string) {
    && s.spec.activeBundle != ""
    && if s.spec.activeBundle == latest then s.status.state == Active
       else s.status.state == UpgradeAvailable && s.status.detail == latest + " available"
  }

  /** What one failure-free step gains: an active bundle, then Active, then the announcement. */
  lemma StepGains(s: Stored, a: Answers, latest: string)
    requires latest != "" && Smooth(s, a, latest)
    ensures var s' := Step(s, a);
            && s'.spec == s.spec.(activeBundle := if s.spec.activeBundle == "" then latest else s.spec.activeBundle)
            && (s.spec.activeBundle == latest ==> Settled(s', latest))
            && (s.spec.activeBundle !in {"", latest} ==> s'.status.state == Active || Settled(s', latest))
            && (s.spec.activeBundle != "" && s.status.state == Active ==> Settled(s', latest))
            && latest in s'.bundles
  {
  }

  /** A missing active bundle is stored again by a failure-free step in state Active. */
  lemma ActiveBundleIsRestored(s: Stored, a: Answers, latest: string)
    requires latest != "" && Smooth(s, a, latest) && s.spec.activeBundle != "" && s.status.state == Active
    ensures s.spec.activeBundle in Step(s, a).bundles
    ensures s.spec.activeBundle !in s.bundles && s.spec.activeBundle != latest ==>
              Step(s, a).bundles[s.spec.activeBundle] == a.download.value
    ensures latest !in s.bundles ==> Step(s, a).bundles[latest] == a.latest.value
  {
  }

  /** Refused writes leave what they would have written. */
  lemma RefusedWritesChangeNothing(s: Stored, a: Answers)
    ensures a.saveStatusError.Some? ==> Step(s, a).status == s.status
    ensures a.saveError.Some? ==> Step(s, a).spec == s.spec
  {
  }

  /** An Active controller whose cluster objects cannot be made, or whose active bundle is missing and cannot
      be downloaded or stored, keeps its status. */
  lemma ActiveFailuresKeepStatus(s: Stored, a: Answers)
    requires a.serverVersionError.None? && a.latest.Ok?
    requires s.spec.activeBundle != "" && s.status.state == Active
    requires a.clusterError.Some? ||
             (s.spec.activeBundle !in s.bundles && (a.download.Err? || a.createActiveError.Some?))
    ensures Step(s, a).status == s.status && Step(s, a).spec == s.spec
  {
  }

  /** A status that changes to Active or UpgradeAvailable records the spec it was reached under, and Active
      comes with an empty detail. */
  lemma StatusRecordsSpec(s: Stored, a: Answers)
    ensures var s' := Step(s, a);
            s'.status != s.status && s'.status.state in {Active, UpgradeAvailable} ==>
              s'.status.spec == s.spec && (s'.status.state == Active ==> s'.status.detail == "")
  {
  }

  /** Two steps reach the goal from anywhere. */
  lemma TwoStepsSettle(s: Stored, a: Answers, b: Answers, latest: string)
    requires latest != "" && Smooth(s, a, latest) && Smooth(Step(s, a), b, latest)
    ensures var s' := Step(Step(s, a), b);
            Settled(s', latest) && (s.spec.activeBundle != "" ==> s'.spec == s.spec)
  {
    hide Step;
    StepGains(s, a, latest);
    StepGains(Step(s, a), b, latest);
    if Settled(Step(s, a), latest) { SettledIsFixed(Step(s, a), b, latest); }
  }

  lemma SettledIsFixed(s: Stored, a: Answers, latest: string)
    requires Settled(s, latest) && Smooth(s, a, latest)
    ensures Step(s, a).spec == s.spec && Step(s, a).status == s.status
  {
  }

  /** Convergence: from every stored spec and status, every sequence of failure-free steps with a
      constant latest bundle has settled after two of them and never changes spec or status again. */
  lemma {:induction false} Converges(ss: seq<Stored>, answers: seq<Answers>, latest: string, i: nat)
    requires latest != "" && |ss| == |answers| + 1 && 2 <= i < |ss|
    requires forall k :: 0 <= k < |answers| ==>
               Smooth(ss[k], answers[k], latest) && ss[k + 1] == Step(ss[k], answers[k])
    ensures Settled(ss[i], latest)
    ensures ss[i].spec == ss[2].spec && ss[i].status == ss[2].status
  {
    if i == 2 {
      assert ss[1] == Step(ss[0], answers[0]);
      TwoStepsSettle(ss[0], answers[0], answers[1], latest);
    } else {
      Converges(ss, answers, latest, i - 1);
      SettledIsFixed(ss[i - 1], answers[i - 1], latest);
    }
  }

  // ----------------------------------------------------------- implementation

  method HasBundleNamed(bundles: seq<PackageBundle>, name: string) returns (found: bool)
    ensures found <==> exists b :: b in bundles && b.name == name
  {
    for i := 0 to |bundles|
      invariant forall k :: 0 <= k < i ==> bundles[k].name != name
    {
      if bundles[i].name == name { return true; }
    }
    return false;
  }

  /** The listing the client returns: one entry per stored bundle, in any order. */
  ghost predicate IsBundleList(listing: seq<PackageBundle>, bundles: map<string, PackageBundle>) {
    forall n :: n in bundles <==> exists b :: b in listing && b.name == n
  }

  /** The API server behind the bundle client. Spec and status are written separately. */
  class Client {
    var spec: ControllerSpec
    var status: ControllerStatus
    var bundles: map<string, PackageBundle>

    ghost function State(): Stored
      reads this
    {
      Stored(spec, status, bundles)
    }

    method CreateBundle(b: PackageBundle, error: Option<string>) returns (ok: bool)
      modifies this`bundles
      ensures ok == WithBundle(old(State()), b, error).Some?
      ensures State() == if ok then WithBundle(old(State()), b, error).value else old(State())
    {
      ok := error.None? && b.name !in bundles;
      if ok { bundles := bundles[b.name := b]; }
    }

    method SaveStatus(s: ControllerStatus, error: Option<string>)
      modifies this`status
      ensures status == if error.Some? then old(status) else s
    {
      if error.None? { status := s; }
    }

    method Save(s: ControllerSpec, error: Option<string>)
      modifies this`spec
      ensures spec == if error.Some? then old(spec) else s
    {
      if error.None? { spec := s; }
    }
  }

  /** The controller's step as it is coded: a local copy of the object is updated field by
      field between client calls, and only the calls change what is stored. */
  method ProcessBundleController(client: Client, listing: seq<PackageBundle>, a: Answers)
    requires IsBundleList(listing, client.bundles)
    modifies client
    ensures client.State() == Step(old(client.State()), a)
  {
    var spec, status := client.spec, client.status;
    if a.serverVersionError.Some? {
      if status.state == Active || status.state == Blank {
        status := status.(detail := a.serverVersionError.value, state := Disconnected);
        client.SaveStatus(status, a.saveStatusError);
      }
      return;
    }
    if a.latest.Err? {
      if status.state == Active || status.state == Blank {
        status := status.(state := Disconnected, detail := a.latest.error);
        client.SaveStatus(status, a.saveStatusError);
      }
      return;
    }
    if a.listError.Some? { return; }
    var latest := a.latest.value;
    var hasLatest := HasBundleNamed(listing, latest.name);
    if !hasLatest {
      var ok := client.CreateBundle(latest, a.createLatestError);
      if !ok { return; }
    }
    var latestIsCurrent := latest.name == spec.activeBundle;
    if spec.activeBundle == "" {
      status := status.(state := Blank);
    }
    if status.state == Active {
      if a.clusterError.Some? { return; }
      var hasActive := HasBundleNamed(listing, spec.activeBundle);
      if !hasActive {
        if a.download.Err? { return; }
        var ok := client.CreateBundle(a.download.value, a.createActiveError);
        if !ok { return; }
      }
      if !latestIsCurrent {
        status := ControllerStatus(UpgradeAvailable, latest.name + " available", spec);
        client.SaveStatus(status, a.saveStatusError);
      }
    } else if status.state == UpgradeAvailable {
      if !latestIsCurrent {
        if status.detail != latest.name + " available" {
          status := status.(detail := latest.name + " available", spec := spec);
          client.SaveStatus(status, a.saveStatusError);
        }
      } else {
        status := ControllerStatus(Active, "", spec);
        client.SaveStatus(status, a.saveStatusError);
      }
    } else if status.state == Disconnected {
      status := ControllerStatus(Active, "", spec);
      client.SaveStatus(status, a.saveStatusError);
    } else {
      if spec.activeBundle != "" {
        status := ControllerStatus(Active, "", spec);
        client.SaveStatus(status, a.saveStatusError);
      } else {
        spec := spec.(activeBundle := latest.name);
        client.Save(spec, a.saveError);
      }
    }
  }
}
