/** The Helm driver with its record of which release lives in which namespace
    (pkg/driver/helmdriver.go, pkg/authenticator/ecrsecret.go). */
module Driver {
  import opened Wrappers
  import opened Json
  import opened Strings
  import opened CommaSets
  import opened Releases

  /** The data of the ns-secret-map config map: a comma-separated text per namespace. */
  type Book = map<string, string>

  function Listed(book: Book, namespace: string): set<string> {
    if namespace in book then NamesOf(book[namespace]) else {}
  }

  // ------------------------------------------------------------ specification

  /** The book after AddToConfigMap: the set is printed back in some order. */
  ghost predicate Added(book: Book, book': Book, name: string, namespace: string) {
    exists order :: Enumerates(order, Listed(book, namespace) + {name}) &&
                    book' == book[namespace := Join(order, ',')]
  }

  /** The book after DelFromConfigMap: a text that became empty loses its key. */
  ghost predicate Removed(book: Book, book': Book, name: string, namespace: string) {
    exists order :: Enumerates(order, Listed(book, namespace) - {name}) &&
                    book' == if Join(order, ',') == "" then book - {namespace}
                             else book[namespace := Join(order, ',')]
  }

  predicate IsName(name: string) { name != "" && ',' !in name }

  /** The text refines a set of names per namespace: adding a name adds it, and nothing else changes. */
  lemma AddedAddsOneName(book: Book, book': Book, name: string, namespace: string)
    requires Added(book, book', name, namespace) && IsName(name)
    ensures namespace in book' && Listed(book', namespace) == Listed(book, namespace) + {name}
    ensures forall n :: n != namespace ==> Listed(book', n) == Listed(book, n) && (n in book' <==> n in book)
  {
    var names := Listed(book, namespace) + {name};
    var order :| Enumerates(order, names) && book' == book[namespace := Join(order, ',')];
    if namespace in book { NamesAreCommaFree(book[namespace]); }
    assert name in names;
    PrintedSetReadsBack(order, names);
  }

  /** Removing a name removes it, and a namespace key disappears exactly when
      nothing but the empty name is left in its set. */
  lemma RemovedRemovesOneName(book: Book, book': Book, name: string, namespace: string)
    requires Removed(book, book', name, namespace)
    ensures namespace !in book' <==> Listed(book, namespace) - {name} <= {""}
    ensures namespace in book' ==> Listed(book', namespace) == Listed(book, namespace) - {name}
    ensures forall n :: n != namespace ==> Listed(book', n) == Listed(book, n) && (n in book' <==> n in book)
  {
    var names := Listed(book, namespace) - {name};
    var order :| Enumerates(order, names) &&
                 book' == if Join(order, ',') == "" then book - {namespace}
                          else book[namespace := Join(order, ',')];
    if namespace in book { NamesAreCommaFree(book[namespace]); }
    PrintedSetReadsBack(order, names);
  }

  /** Whether the config map could be read and written back in the calls of one operation. */
  datatype BookEnv = BookEnv(addWorks: bool, delWorks: bool)

  const WORKING := BookEnv(true, true)

  /** The API server drops an empty map, so a book without entries is read as a nil map, and
      assigning to it panics. */
  predicate Panics(book: Book, works: bool) { works && book == map[] }

  ghost predicate MaybeAdded(book: Book, book': Book, name: string, namespace: string, works: bool) {
    if works && book != map[] then Added(book, book', name, namespace) else book' == book
  }

  ghost predicate MaybeRemoved(book: Book, book': Book, name: string, namespace: string, works: bool) {
    if works && book != map[] then Removed(book, book', name, namespace) else book' == book
  }

  /** The answers to an Install together with what this book answers. A book that could be
      entered into is not empty when the release is taken out again. */
  function WithBook(env: InstallEnv, book: Book, b: BookEnv): InstallEnv {
    env.(addPanics := Panics(book, b.addWorks), delPanics := !b.addWorks && Panics(book, b.delWorks))
  }

  lemma AddedIsNotEmpty(book: Book, book': Book, name: string, namespace: string, works: bool)
    requires MaybeAdded(book, book', name, namespace, works)
    ensures book' == map[] ==> book == map[]
  {
  }

  /** Neither touches another name, wherever it is listed. */
  lemma OtherNamesStay(book: Book, book': Book, name: string, namespace: string, works: bool,
                       other: string, where: string)
    requires (MaybeAdded(book, book', name, namespace, works) && IsName(name))
             || MaybeRemoved(book, book', name, namespace, works)
    requires IsName(other) && other != name && other in Listed(book, where)
    ensures other in Listed(book', where)
  {
    if book' != book {
      if Added(book, book', name, namespace) && IsName(name) {
        AddedAddsOneName(book, book', name, namespace);
      } else {
        RemovedRemovesOneName(book, book', name, namespace);
        assert where == namespace ==> other in Listed(book, namespace) - {name};
      }
    }
  }

  datatype State = State(releases: map<string, Release>, book: Book)

  /** What an Install may do. A new release is entered before it is deployed, and taken out again on failure. */
  ghost predicate InstallStep(s: State, s': State, name: string, namespace: string, values: Values,
                              env: InstallEnv, b: BookEnv) {
    && s'.releases == Installing(s.releases, name, namespace, values, WithBook(env, s.book, b)).0
    && if env.chart.Err? || TargetNamespace(namespace, env.chart.value).None? || env.lookupError.Some? then
         s'.book == s.book
       else
         var target := TargetNamespace(namespace, env.chart.value).value;
         if name in s.releases then
           if env.deployError.Some? then s'.book == s.book
           else MaybeAdded(s.book, s'.book, name, target, b.addWorks)
         else if env.deployError.None? || Panics(s.book, b.addWorks) then
           MaybeAdded(s.book, s'.book, name, target, b.addWorks)
         else exists mid :: MaybeAdded(s.book, mid, name, target, b.addWorks) &&
                            MaybeRemoved(mid, s'.book, name, target, b.delWorks)
  }

  ghost predicate UninstallStep(s: State, s': State, name: string, error: Option<string>, b: BookEnv) {
    && s'.releases == Uninstalling(s.releases, name, error).0
    && if error.Some? || name !in s.releases then s'.book == s.book
       else MaybeRemoved(s.book, s'.book, name, s.releases[name].namespace, b.delWorks)
  }

  // -------------------------------------------------------------- bookkeeping

  datatype Operation =
    | Install(name: string, namespace: string, values: Values, env: InstallEnv)
    | Uninstall(name: string, error: Option<string>)

  ghost predicate StepOf(s: State, s': State, o: Operation) {
    match o
    case Install(name, namespace, values, env) => InstallStep(s, s', name, namespace, values, env, WORKING)
    case Uninstall(name, error) => UninstallStep(s, s', name, error, WORKING)
  }

  ghost predicate HomeIs(s: State, home: string -> string) {
    forall n :: n in s.releases ==> s.releases[n].namespace == home(n)
  }

  ghost predicate KeepsHome(o: Operation, home: string -> string) {
    o.Install? && o.env.chart.Ok? ==> TargetNamespace(o.namespace, o.env.chart.value) in {None, Some(home(o.name))}
  }

  /** A sequence of operations with a working config map, in which each release keeps its namespace. */
  ghost predicate IsHistory(ss: seq<State>, os: seq<Operation>, home: string -> string) {
    && |ss| == |os| + 1
    && HomeIs(ss[0], home)
    && forall i :: 0 <= i < |os| ==>
         IsName(os[i].name) && StepOf(ss[i], ss[i + 1], os[i]) && KeepsHome(os[i], home)
  }

  /** An Install of this release that succeeds. */
  ghost predicate Succeeds(s: State, o: Operation, name: string) {
    && o.Install? && o.name == name
    && Installing(s.releases, name, o.namespace, o.values, WithBook(o.env, s.book, WORKING)).1 == Completed
  }

  /** An operation that leaves this release as it is: one on another release, or a refused uninstall. */
  predicate Spares(o: Operation, name: string) {
    o.name != name || (o.Uninstall? && o.error.Some?)
  }

  ghost predicate IsListed(s: State, name: string, home: string -> string) {
    name in s.releases && name in Listed(s.book, home(name))
  }

  lemma StepKeepsHomes(s: State, s': State, o: Operation, home: string -> string)
    requires StepOf(s, s', o) && KeepsHome(o, home) && HomeIs(s, home)
    ensures HomeIs(s', home)
  {
  }

  lemma SuccessIsListed(s: State, s': State, o: Operation, name: string, home: string -> string)
    requires StepOf(s, s', o) && KeepsHome(o, home) && IsName(name) && Succeeds(s, o, name)
    ensures IsListed(s', name, home)
  {
    AddedAddsOneName(s.book, s'.book, name, home(name));
  }

  /** An operation takes no name but its own out of the book. */
  lemma StepKeepsOthers(s: State, s': State, o: Operation, other: string, where: string)
    requires StepOf(s, s', o) && IsName(o.name) && IsName(other) && Spares(o, other)
    requires other in Listed(s.book, where)
    ensures other in Listed(s'.book, where)
  {
    hide Added, Removed, Listed, MaybeAdded, MaybeRemoved, Panics, Installing;
    if s'.book != s.book {
      if o.Uninstall? {
        OtherNamesStay(s.book, s'.book, o.name, s.releases[o.name].namespace, true, other, where);
      } else {
        var target := TargetNamespace(o.namespace, o.env.chart.value).value;
        if MaybeAdded(s.book, s'.book, o.name, target, true) {
          OtherNamesStay(s.book, s'.book, o.name, target, true, other, where);
        } else {
          var mid :| MaybeAdded(s.book, mid, o.name, target, true) && MaybeRemoved(mid, s'.book, o.name, target, true);
          OtherNamesStay(s.book, mid, o.name, target, true, other, where);
          OtherNamesStay(mid, s'.book, o.name, target, true, other, where);
        }
      }
    }
  }

  lemma OthersStayListed(s: State, s': State, o: Operation, name: string, home: string -> string)
    requires StepOf(s, s', o) && IsName(o.name) && IsName(name) && Spares(o, name) && IsListed(s, name, home)
    ensures IsListed(s', name, home)
  {
    StepKeepsOthers(s, s', o, name, home(name));
  }

  lemma {:induction false} HomesAreKept(ss: seq<State>, os: seq<Operation>, home: string -> string, i: nat)
    requires IsHistory(ss, os, home) && i < |ss|
    ensures HomeIs(ss[i], home)
  {
    if i > 0 {
      HomesAreKept(ss, os, home, i - 1);
      assert StepOf(ss[i - 1], ss[(i - 1) + 1], os[i - 1]);
      StepKeepsHomes(ss[i - 1], ss[i], os[i - 1], home);
    }
  }

  /** Namespace bookkeeping: over every history, a release whose last Install succeeded and
      which was not uninstalled since is listed under its namespace, whatever order sets are printed in. */
  lemma {:induction false} InstalledReleasesAreListed(ss: seq<State>, os: seq<Operation>, home: string -> string,
                                                      name: string, j: nat, i: nat)
    requires IsHistory(ss, os, home) && j < i < |ss| && Succeeds(ss[j], os[j], name)
    requires forall k :: j < k < i ==> Spares(os[k], name)
    ensures IsListed(ss[i], name, home)
  {
    hide StepOf, Succeeds, IsListed;
    assert StepOf(ss[i - 1], ss[(i - 1) + 1], os[i - 1]) && KeepsHome(os[i - 1], home);
    HomesAreKept(ss, os, home, i - 1);
    if i == j + 1 {
      assert IsName(os[j].name) && os[j].name == name by {
        OperationIsOn(ss[j], os[j], name);
      }
      SuccessIsListed(ss[j], ss[i], os[j], name, home);
    } else {
      InstalledReleasesAreListed(ss, os, home, name, j, i - 1);
      OperationIsOn(ss[j], os[j], name);
      OthersStayListed(ss[i - 1], ss[i], os[i - 1], name, home);
    }
  }

  /** An operation that leaves the book without an entry of its release under that namespace: an uninstall of
      a release that lives there, or an install of a new one that is deployed there in vain. */
  ghost predicate Clears(s: State, o: Operation, name: string, namespace: string) {
    && o.name == name && s.book != map[]
    && match o
       case Uninstall(_, error) => error.None? && name in s.releases && s.releases[name].namespace == namespace
       case Install(_, asked, _, env) =>
         && name !in s.releases && env.chart.Ok? && env.lookupError.None? && env.deployError.Some?
         && TargetNamespace(asked, env.chart.value) == Some(namespace)
  }

  lemma ClearedIsNotListed(s: State, s': State, o: Operation, name: string, namespace: string)
    requires StepOf(s, s', o) && IsName(name) && Clears(s, o, name, namespace)
    ensures name !in Listed(s'.book, namespace)
  {
    hide Added, Removed, Listed, Installing, Uninstalling;
    if o.Uninstall? {
      RemovedIsNotListed(s.book, s'.book, name, namespace);
    } else {
      var mid :| MaybeAdded(s.book, mid, name, namespace, true) && MaybeRemoved(mid, s'.book, name, namespace, true);
      AddedIsNotEmpty(s.book, mid, name, namespace, true);
      RemovedIsNotListed(mid, s'.book, name, namespace);
    }
  }

  lemma RemovedIsNotListed(book: Book, book': Book, name: string, namespace: string)
    requires Removed(book, book', name, namespace)
    ensures name !in Listed(book', namespace)
  {
    RemovedRemovesOneName(book, book', name, namespace);
  }

  /** An operation enters no name but its own. */
  lemma StepEntersOwnName(s: State, s': State, o: Operation, other: string, where: string)
    requires StepOf(s, s', o) && IsName(o.name) && o.name != other && other !in Listed(s.book, where)
    ensures other !in Listed(s'.book, where)
  {
    hide Added, Removed, Listed, MaybeAdded, MaybeRemoved, Panics, Installing;
    if s'.book != s.book {
      if o.Uninstall? {
        NoOtherEnters(s.book, s'.book, o.name, s.releases[o.name].namespace, true, other, where);
      } else {
        var target := TargetNamespace(o.namespace, o.env.chart.value).value;
        if MaybeAdded(s.book, s'.book, o.name, target, true) {
          NoOtherEnters(s.book, s'.book, o.name, target, true, other, where);
        } else {
          var mid :| MaybeAdded(s.book, mid, o.name, target, true) && MaybeRemoved(mid, s'.book, o.name, target, true);
          NoOtherEnters(s.book, mid, o.name, target, true, other, where);
          NoOtherEnters(mid, s'.book, o.name, target, true, other, where);
        }
      }
    }
  }

  lemma NoOtherEnters(book: Book, book': Book, name: string, namespace: string, works: bool,
                      other: string, where: string)
    requires (MaybeAdded(book, book', name, namespace, works) && IsName(name))
             || MaybeRemoved(book, book', name, namespace, works)
    requires other != name && other !in Listed(book, where)
    ensures other !in Listed(book', where)
  {
    if book' != book {
      if Added(book, book', name, namespace) && IsName(name) {
        AddedAddsOneName(book, book', name, namespace);
      } else {
        RemovedRemovesOneName(book, book', name, namespace);
      }
    }
  }

  /** The other half of the bookkeeping: over every history, a release that was uninstalled, or whose install
      failed, is not listed under that namespace until there is another operation on it. */
  lemma {:induction false} ClearedReleasesAreNotListed(ss: seq<State>, os: seq<Operation>, home: string -> string,
                                                       name: string, namespace: string, j: nat, i: nat)
    requires IsHistory(ss, os, home) && j < i < |ss| && Clears(ss[j], os[j], name, namespace)
    requires forall k :: j < k < i ==> os[k].name != name
    ensures name !in Listed(ss[i].book, namespace)
  {
    hide StepOf, Listed;
    assert StepOf(ss[i - 1], ss[(i - 1) + 1], os[i - 1]);
    if i == j + 1 {
      ClearedIsNotListed(ss[j], ss[i], os[j], name, namespace);
    } else {
      ClearedReleasesAreNotListed(ss, os, home, name, namespace, j, i - 1);
      StepEntersOwnName(ss[i - 1], ss[i], os[i - 1], name, namespace);
    }
  }

  const PLACEHOLDER := "eksa-package-placeholder"
  const PLACEHOLDER_NAMESPACE := "emissary-system"

  /** The placeholder entered on creation of the config map (pkg/bundle/client.go:204) keeps the
      book from ever becoming empty, so no operation panics on it. */
  lemma {:induction false} BookIsNeverEmpty(ss: seq<State>, os: seq<Operation>, home: string -> string, i: nat)
    requires IsHistory(ss, os, home) && i < |ss|
    requires PLACEHOLDER in Listed(ss[0].book, PLACEHOLDER_NAMESPACE)
    requires forall k :: 0 <= k < |os| ==> os[k].name != PLACEHOLDER
    ensures PLACEHOLDER in Listed(ss[i].book, PLACEHOLDER_NAMESPACE) && !Panics(ss[i].book, true)
  {
    hide StepOf;
    if i > 0 {
      BookIsNeverEmpty(ss, os, home, i - 1);
      assert StepOf(ss[i - 1], ss[(i - 1) + 1], os[i - 1]);
      StepKeepsOthers(ss[i - 1], ss[i], os[i - 1], PLACEHOLDER, PLACEHOLDER_NAMESPACE);
    }
  }

  lemma OperationIsOn(s: State, o: Operation, name: string)
    requires Succeeds(s, o, name)
    ensures o.name == name
  {
  }

  // ----------------------------------------------------------- implementation

  /** The authenticator's access to the config map. */
  class EcrSecret {
    var data: Book

    method AddToConfigMap(name: string, namespace: string, works: bool) returns (panicked: bool)
      modifies this
      ensures panicked == Panics(old(data), works)
      ensures MaybeAdded(old(data), data, name, namespace, works)
    {
      if !works { return false; }
      var css := new CSSet(if namespace in data then data[namespace] else "");
      css.Add(name);
      var text := css.String();
      if data == map[] { return true; }
      data := data[namespace := text];
      return false;
    }

    method DelFromConfigMap(name: string, namespace: string, works: bool) returns (panicked: bool)
      modifies this
      ensures panicked == Panics(old(data), works)
      ensures MaybeRemoved(old(data), data, name, namespace, works)
    {
      if !works { return false; }
      var css := new CSSet(if namespace in data then data[namespace] else "");
      css.Del(name);
      var text := css.String();
      if data == map[] { return true; }
      var changed := data[namespace := text];
      if changed[namespace] == "" {
        changed := changed - {namespace};
        assert changed == data - {namespace};
      }
      data := changed;
      return false;
    }
  }

  class HelmDriver {
    var releases: map<string, Release>
    const secretAuth: EcrSecret

    constructor (auth: EcrSecret)
      ensures secretAuth == auth && releases == map[]
    {
      secretAuth := auth;
      releases := map[];
    }

    ghost function Snapshot(): State
      reads this, secretAuth
    {
      State(releases, secretAuth.data)
    }

    method Install(name: string, namespace: string, input: Values, env: InstallEnv, b: BookEnv) returns (done: Done)
      modifies this, secretAuth
      ensures InstallStep(old(Snapshot()), Snapshot(), name, namespace, input, env, b)
      ensures (releases, done) ==
              Installing(old(releases), name, namespace, input, WithBook(env, old(secretAuth.data), b))
    {
      hide Added, Removed;
      var values := input;
      if env.chart.Err? { return Failed(env.chart.error); }
      var resolved := TargetNamespace(namespace, env.chart.value);
      if resolved.None? { return Panicked; }
      var target := resolved.value;
      values := values[IMAGE_PULL_SECRETS := PULL_SECRETS];
      if env.lookupError.Some? { return Failed(env.lookupError.value); }
      if name !in releases {
        done := InstallNew(name, namespace, target, input, values, env, b);
        return;
      }
      var upgraded := Release(values, releases[name].namespace);
      if env.deployError.Some? {
        if env.keepsFailed { releases := releases[name := upgraded]; }
        return Failed(env.deployError.value);
      }
      releases := releases[name := upgraded];
      var panicked := secretAuth.AddToConfigMap(name, target, b.addWorks);
      return if panicked then Panicked else Completed;
    }

    /** The branch of Install for a release that Helm does not have. */
    method InstallNew(name: string, namespace: string, target: string, ghost input: Values, values: Values,
                      env: InstallEnv, b: BookEnv)
      returns (done: Done)
      requires env.chart.Ok? && TargetNamespace(namespace, env.chart.value) == Some(target)
      requires env.lookupError.None? && name !in releases && values == WithPullSecrets(input)
      modifies this, secretAuth
      ensures InstallStep(old(Snapshot()), Snapshot(), name, namespace, input, env, b)
      ensures done == Installing(old(releases), name, namespace, input, WithBook(env, old(secretAuth.data), b)).1
    {
      hide Added, Removed, WithPullSecrets;
      var panicked := secretAuth.AddToConfigMap(name, target, b.addWorks);
      if panicked { return Panicked; }
      ghost var mid := secretAuth.data;
      if env.deployError.Some? {
        if env.keepsFailed { releases := releases[name := Release(values, target)]; }
        AddedIsNotEmpty(old(secretAuth.data), mid, name, target, b.addWorks);
        panicked := secretAuth.DelFromConfigMap(name, target, b.delWorks);
        assert MaybeAdded(old(secretAuth.data), mid, name, target, b.addWorks);
        return if panicked then Panicked else Failed(env.deployError.value);
      }
      releases := releases[name := Release(values, target)];
      return Completed;
    }

    method Uninstall(name: string, error: Option<string>, b: BookEnv) returns (done: Done)
      modifies this, secretAuth
      ensures UninstallStep(old(Snapshot()), Snapshot(), name, error, b)
      ensures error.None? ==> name !in releases
      ensures forall n :: n != name || error.Some? ==>
                (n in releases <==> n in old(releases)) && (n in releases ==> releases[n] == old(releases)[n])
      ensures done == if error.None? && name in old(releases) && Panics(old(secretAuth.data), b.delWorks) then Panicked
                      else Uninstalling(old(releases), name, error).1
    {
      if error.Some? { return Failed(error.value); }
      if name !in releases {
        assert releases - {name} == releases;
        return Completed;
      }
      var release := releases[name];
      releases := releases - {name};
      var panicked := secretAuth.DelFromConfigMap(name, release.namespace, b.delWorks);
      return if panicked then Panicked else Completed;
    }

    method IsConfigChanged(name: string, input: Values, lookupFails: bool) returns (changed: bool)
      ensures changed == ConfigChanged(releases, name, input, lookupFails)
    {
      if lookupFails || name !in releases { return true; }
      var values := input;
      var config := releases[name].config;
      if IMAGE_PULL_SECRETS !in values {
        if IMAGE_PULL_SECRETS in config {
          values := values[IMAGE_PULL_SECRETS := config[IMAGE_PULL_SECRETS]];
        }
      }
      return values != config;
    }
  }
}
