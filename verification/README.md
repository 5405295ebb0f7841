# EKS Anywhere packages: a verified model

The package controller of EKS Anywhere runs curated Helm charts on Kubernetes clusters. Its reconcilers
move stored objects through state machines one step at a time while registries, Helm and users change
things underneath. This project models those state machines and the text and tree transformations around
them in Dafny, and proves what holds over whole runs.

| file | what it holds |
|---|---|
| `Packages.dfy` | one reconcile of a package as a function over a namespace of the API server |
| `Manager.dfy` | the same reconcile as coded, with classes whose fields the state functions update; proved to refine `Packages.Reconcile` |
| `Runs.dfy` | safety over every interleaving of reconciles and outside changes: closed state graph, dependency safety, installed version, deadlock |
| `Effects.dfy` | what a step asks of the driver, creates and reports, field by field |
| `Convergence.dfy`, `Rounds.dfy` | liveness: drift fixpoint, phases, and convergence in a number of rounds bounded by the dependency depth |
| `BundleController.dfy` | the bundle controller: safety of the active bundle, convergence in two steps |
| `Releases.dfy`, `Driver.dfy`, `CommaSets.dfy` | the Helm driver, its drift check and its namespace book, a set kept as comma-separated text |
| `Signature.dfy`, `Paths.dfy` | the canonical form that is signed, and publishing; what deletion does path by path |
| `Schemas.dfy` | JSON Schema inference |
| `Bundles.dfy`, `BundleNames.dfy`, `Matching.dfy` | resolution in a bundle, bundle names and their admission, matching of sources |
| `Kubelet.dfy`, `Artifacts.dfy`, `Images.dfy` | kubelet arguments, artifact URIs, selection of images |
| `Strings.dfy`, `Json.dfy`, `Wrappers.dfy` | splitting and joining, JSON trees, results |

Answers of foreign systems (API server, registries, Helm, the target cluster) are inputs of each step: a
failure can happen at every call. Map iteration and listing orders are arbitrary. A Go panic (a failed type
assertion, a nil dereference, an index out of range) is an outcome of its own, and a step that panics stores
no status.

Results worth knowing that are not visible in any single function:

- Convergence takes at most 5 rounds per dependency layer: three per layer, from the top down, until every
  package has its dependencies created, and two per layer, from the bottom up, until every package settles.
- The drift check accepts its own install exactly when the configuration leaves `imagePullSecrets` to the
  driver or names the very same ones. With any other `imagePullSecrets` the step after every install starts the next update.
- Over manifests whose changeable values have the types a manifest gives them, signatures survive changes of
  status, generated metadata, the minimum controller version and unsigned annotations exactly for exclude
  selectors that cannot be followed in one manifest and not in the other, which is an explicit test on the
  selector. The excludes of published bundles pass it. Everything else is covered by the signature: with
  these excludes the package list agrees, in length and element by element, outside registry and repository.
- The namespace book would panic once it is empty, as the API server drops an empty map. The placeholder that is
  entered when it is created prevents that.
- Matching two sources by keys is comparing their versions exactly for names that do not overlap.
- The error for an empty selection of images cannot occur; the call panics instead. A failing later page of an image
  listing is silently dropped.
- Printing a parsed artifact URI returns it exactly when its digest part is not empty.

Where code and comments disagree, the model follows the code. `removeDuplicates` is commented as removing the
first duplicate; it keeps the first and drops the later ones.

## Model

| member | source | states |
|---|---|---|
| `Packages.LastNamedIsLast` | pkg/packages/manager.go:105-111 | the package found for a dependency is the last listed one with exactly that package name |
| `Packages.NotReady` | pkg/packages/manager.go:102-132 | nothing is waited for exactly when, for each dependency, the last listed package with its name is Installed |
| `Packages.NotReadyNames` | pkg/packages/manager.go:112-129 | a name is waited for exactly when it is that of a dependency that is not ready |
| `Packages.DependenciesOnlyAdd` | pkg/packages/manager.go:116-124 | creating dependencies changes no stored package; what it adds is an unlisted dependency with its own name, no version, its parent's config and target namespace, and state Unset |
| `Packages.DependenciesAreAdded` | pkg/packages/manager.go:104-125 | each dependency that no listed package names is stored afterwards unless the API server refuses it |
| `Packages.ResolveIff` | controllers/package_controller.go:147-193 | a package resolves to the first version selected, by its version text or else by "latest", of the first bundle package named, with the fields of its source, and each early exit is taken, with its detail, exactly when its lookup fails |
| `Manager.ManagerContext.FindLast` | pkg/packages/manager.go:105-111 | the search loop finds the last exact match |
| `Manager.ManagerContext.ScanDependencies` | pkg/packages/manager.go:102-125 | the nested loops collect the names of all dependencies that are not ready and create exactly the missing packages |
| `Manager.ManagerContext.ProcessInstallingDependencies` | pkg/packages/manager.go:82-136 | refines the dependency turn of the specification, error paths included |
| `Manager.ManagerContext.ProcessInstalling` | pkg/packages/manager.go:138-172 | refines the install turn, with defaulted registries, driver failures and panics |
| `Manager.ManagerContext.Deploy` | pkg/packages/manager.go:152-171 | the call of the driver refines the specification on each of its ends: completed, failed, panicked |
| `Manager.ManagerContext.ProcessInstalled` | pkg/packages/manager.go:174-216 | refines the drift turn |
| `Manager.ManagerContext.ProcessUninstalling` | pkg/packages/manager.go:218-233 | refines the uninstall turn, which never asks for a status write |
| `Manager.ManagerContext.Process` | pkg/packages/manager.go:281-318 | dispatch on namespace and state, states not listed included, refines the turn of the specification |
| `Manager.ResolvePackage` | controllers/package_controller.go:147-193 | bundle, package and version are resolved, or the detail of the early exit is given |
| `Manager.ReconcileStored` | controllers/package_controller.go:146-204 | the reconcile of an existing package refines the specification |
| `Manager.ReconcileDeleted` | controllers/package_controller.go:140-145 | the reconcile of a deleted package refines the specification |
| `Manager.Reconcile` | controllers/package_controller.go:133-205 | the coded controller, over mutable objects, does to packages, releases and driver calls exactly what `Packages.Reconcile` does, given what the namespace book answers |
| `Runs.DependencyTurnIsSound` | pkg/packages/manager.go:82-136 | a dependency turn moves to Installing only with every dependency ready, and only adds packages |
| `Runs.InstallTurnIsSound` | pkg/packages/manager.go:138-172 | an install turn moves to Installed only after a completed driver install of the recorded source |
| `Runs.InstalledTurnIsQuiet` | pkg/packages/manager.go:174-216 | an installed turn calls no driver and either moves to Updating or keeps source and version |
| `Runs.ProcessIsSound` | pkg/packages/manager.go:281-318 | in every state and namespace the turn of the manager follows an edge and justifies each move that matters |
| `Runs.TurnIsSound` | controllers/package_controller.go:133-205 | every turn keeps the spec, follows an edge of the state graph and justifies each move that matters |
| `Runs.EventFollowsEdge` | pkg/packages/manager.go:264-318 | each event moves each stored package along an edge of the state graph, only its own reconcile moves it, and early exits never move it |
| `Runs.ReachableStates` | pkg/packages/manager.go:264-318 | in every run from fresh packages only five states are stored in a valid namespace, Uninstalling never; in any other namespace the driver is never called |
| `Runs.UnknownIsAbsorbing` | pkg/packages/manager.go:243-246 | in every run a package found Unknown stays Unknown as long as it exists |
| `Runs.EntersInstallingThroughCheck` | pkg/packages/manager.go:104-136 | a package enters Installing only from InstallingDependencies in a step that found all dependencies of the resolved version ready |
| `Runs.InstallsOnlyWhenInstalling` | pkg/packages/manager.go:138-162 | the driver is asked to install only packages in state Installing |
| `Runs.InstallsAreChecked` | pkg/packages/manager.go:82-162 | every driver install of a run has such a check earlier in that package's history, with the state Installing ever since |
| `Runs.EntersInstalledThroughInstall` | pkg/packages/manager.go:157-172 | a package becomes Installed only by a completed install of its source, an empty registry replaced by the default |
| `Runs.InstalledVersionIsSourceVersion` | pkg/packages/manager.go:138-180 | in every reachable store an Installed package reports its source's version, and its last install was of that source and succeeded |
| `Effects.RegistryCarries` | pkg/packages/manager.go:57-64 | the source registry put into the values is the configuration's own non-empty text, else the controller's default, else the public one, every other key stays, and only a registry that is no text panics |
| `Effects.InstallCallIsAsked` | pkg/packages/manager.go:138-162 | every driver install, in every run, is of the source of the version the spec asks for, an empty registry defaulted, with values that carry the configuration |
| `Effects.SettledReleaseCarries` | pkg/packages/manager.go:174-216 | the stored release of a settled package carries its configuration, pull secrets apart |
| `Effects.CreatedPackages` | pkg/packages/manager.go:104-125 | a reconcile creates packages only for dependencies no stored package names, with name, empty version, the config and target namespace of the reconciled package, and state Unset |
| `Effects.DeletedPackageIsUninstalled` | controllers/package_controller.go:140-145 | the reconcile of a deleted package calls the driver once, after which its release is gone, or all stay if that fails, and no other release changes |
| `Effects.DeletedPackageMayStay` | pkg/packages/manager.go:218-223 | it does nothing in a foreign namespace or when package or driver cannot be reached |
| `Effects.EarlyExitsAreTold` | controllers/package_controller.go:147-191 | an early exit writes its detail into the status and changes nothing else |
| `Effects.ForeignNamespaceIsTold` | pkg/packages/manager.go:291-301 | a package in a foreign namespace becomes Unknown and is told why, once |
| `Effects.CheckIsTold` | pkg/packages/manager.go:82-135 | a dependency check that cannot be made tells why and keeps the state, one that passes clears the detail |
| `Effects.WaitingIsTold` | pkg/packages/manager.go:127-132 | a waiting package names exactly the dependencies that are not ready |
| `Effects.InstallFailuresAreTold` | pkg/packages/manager.go:143-162 | every failure of an install, of configuration, driver or Helm, is told, and state and version stay |
| `Effects.DriftFailuresAreTold` | pkg/packages/manager.go:184-196 | so is every failure of a drift check |
| `Effects.StatusTells` | controllers/package_controller.go:169-202 | a stored status shows the version asked for, with the one latest stands for, and records spec, source and the hint on the old namespace at each move |
| `Effects.RefusedWritesChangeNothing` | controllers/package_controller.go:140-202 | a package that cannot be read or written keeps its status |
| `Runs.StuckFailsCheck` | pkg/packages/manager.go:104-132 | no dependency check passes for a member of a knot while all members are stuck |
| `Runs.KnotNeverInstalls` | pkg/packages/manager.go:104-134 | when every version of every package of a set needs a member of the set, no package naming a member ever reaches Installing or Installed, in any run from fresh packages |
| `Convergence.DependencyReconcile` | pkg/packages/manager.go:82-136 | a failure-free dependency check stores exactly the old packages, the missing dependencies and the new status |
| `Convergence.SettledStoresNothing` | pkg/packages/manager.go:174-216 | reconciling a settled package changes nothing at all |
| `Convergence.DriftFixpointIff` | pkg/packages/manager.go:138-216 | the step after a successful install leaves everything alone if the configuration names no other pull secrets, and goes to Updating otherwise |
| `Convergence.CheckPhase` | pkg/packages/manager.go:104-136 | after a check every dependency is present, so the package waits or installs |
| `Convergence.CheckPasses` | pkg/packages/manager.go:127-135 | with all dependencies present and installed the check passes, for every listing order |
| `Convergence.OwnPhase` | pkg/packages/manager.go:66-216 | every failure-free step on a package lowers its number of remaining moves, except while it waits for dependencies or is settled |
| `Convergence.OtherPhase` | pkg/packages/manager.go:66-216 | a step on one package never raises the remaining moves of another |
| `Convergence.BirthPhase` | pkg/packages/manager.go:116-124 | a created dependency package can be worked on and lies on a lower dependency layer |
| `Convergence.CalmIsStable` | pkg/packages/manager.go:66-216 | failure-free steps keep every package workable and in scope, and object names free of collisions |
| `Rounds.RoundAdvances` | pkg/packages/manager.go:66-216 | a fair round brings every package below the next bound on its remaining moves |
| `Rounds.RoundsExist` | pkg/packages/manager.go:66-216 | from every workable world there are fair failure-free rounds of any number, so convergence is not about an empty set of runs |
| `Rounds.Converges` | pkg/packages/manager.go:66-216 | from any workable states, if what the stored packages lead to is acyclic, 5 fair rounds per dependency layer settle every package, created ones included, and no later step changes anything |
| `Bundles.PackageNamedIsFirst` | api/v1alpha1/packagebundle.go:29-36 | the package found is the first whose name matches when case is ignored |
| `Bundles.EqualFoldIff` | api/v1alpha1/packagebundle.go:31 | names match exactly when they differ at most in the case of letters |
| `Bundles.ResolvedNameResolvesToItself` | api/v1alpha1/packagebundle.go:29-36 | the bundle's spelling of a resolved name resolves to the same entry |
| `Bundles.VersionNamedIsFirst` | api/v1alpha1/packagebundle.go:49-59 | the version found is the first whose name or digest is asked for, or the very first for "latest" |
| `Bundles.Resolved` | api/v1alpha1/packagebundle.go:38-47 | dependencies resolve one by one in order, and as a whole exactly when each does |
| `Bundles.FindPackage` | api/v1alpha1/packagebundle.go:29-36 | the search loop finds the first match |
| `Bundles.FindVersion` | api/v1alpha1/packagebundle.go:49-59 | the search loop finds the first version selected by name, digest or "latest" |
| `Bundles.GetDependencies` | api/v1alpha1/packagebundle.go:38-47 | the loop resolves all dependencies or fails with the first that is missing |
| `BundleController.HasBundleNamed` | pkg/bundle/manager.go:92-99 | true exactly when a listed bundle has the name |
| `BundleController.ProcessBundleController` | pkg/bundle/manager.go:101-264 | the coded switch, with separate spec and status writes and the list read before bundles are created, refines the step function |
| `BundleController.StepIsSafe` | pkg/bundle/manager.go:140-261 | a step never changes a non-empty active bundle, sets an empty one only to a stored name, and neither removes nor overwrites a bundle, whatever fails |
| `BundleController.UnreachableDisconnects` | pkg/bundle/manager.go:102-138 | when cluster or registry cannot be reached, spec and bundles stay, and a controller that was Active or new becomes Disconnected with that error, unless the write is refused |
| `BundleController.DisconnectedWhenUnreachable` | pkg/bundle/manager.go:102-138 | over every run Disconnected is entered only so |
| `BundleController.EarlyFailuresChangeNothing` | pkg/bundle/manager.go:140-150 | a failing list, or a latest bundle that cannot be stored, leaves everything as it is |
| `BundleController.ActiveBundleIsRestored` | pkg/bundle/manager.go:145-200 | a failure-free step in state Active stores a missing latest and a missing active bundle |
| `BundleController.ActiveFailuresKeepStatus` | pkg/bundle/manager.go:158-200 | failing cluster objects, download or creation leave spec and status |
| `BundleController.RefusedWritesChangeNothing` | pkg/bundle/manager.go:101-261 | a refused status or spec write leaves status or spec |
| `BundleController.StatusRecordsSpec` | pkg/bundle/manager.go:205-251 | a status that changes to Active or UpgradeAvailable records the spec, and Active clears the detail |
| `BundleController.ActiveBundleIsTheUsers` | pkg/bundle/manager.go:242-261 | over every run the spec with a chosen active bundle stays until a user edits it |
| `BundleController.BundlesAreKept` | pkg/bundle/manager.go:145-199 | over every run a stored bundle stays as it is until somebody else drops it |
| `BundleController.TwoStepsSettle` | pkg/bundle/manager.go:101-264 | from every spec and status two failure-free steps reach Active on the latest bundle, or UpgradeAvailable announcing it |
| `BundleController.SettledIsFixed` | pkg/bundle/manager.go:157-241 | a settled controller keeps spec and status |
| `BundleController.Converges` | pkg/bundle/manager.go:101-264 | every sequence of failure-free steps with a constant latest bundle has settled after two and never changes spec or status again |
| `Releases.DriftAfterInstall` | pkg/driver/helmdriver.go:99-108 | the drift check rejects what an install has just written exactly when the values name other pull secrets |
| `Releases.UnchangedIff` | pkg/driver/helmdriver.go:224-241 | no update is needed exactly when the release can be read and agrees on every key, on pull secrets only if they are configured |
| `Releases.InstallLeaves` | pkg/driver/helmdriver.go:89-154 | a completed install leaves exactly the values passed in plus the two pull secrets, in the namespace asked for, else the chart's, else default, and no other release changes |
| `Releases.InstallEnds` | pkg/driver/helmdriver.go:84-142 | when an install completes, and which error it fails with |
| `Releases.FailedInstallLeaves` | pkg/driver/helmdriver.go:122-142 | a failed install changes at most its own release, and only if Helm keeps the failed revision |
| `Releases.UninstallLeaves` | pkg/driver/helmdriver.go:201-215 | an uninstall without error removes that release and no other, one with an error removes nothing |
| `Driver.HelmDriver.Install` | pkg/driver/helmdriver.go:75-154 | releases and namespace book change as specified on each path: chart, namespace and lookup failures, new release, failed release, upgrade, and a panic on a book without data |
| `Driver.HelmDriver.Uninstall` | pkg/driver/helmdriver.go:201-215 | the release is gone and its name leaves the book of its own namespace; a missing release is no error, a book without data a panic |
| `Driver.HelmDriver.IsConfigChanged` | pkg/driver/helmdriver.go:224-241 | compares with the release's values after taking over pull secrets the configuration does not set |
| `Driver.EcrSecret.AddToConfigMap` | pkg/authenticator/ecrsecret.go:61-79 | the namespace's text becomes some printing of its set with the name added, unless the config map holds no data, which panics |
| `Driver.EcrSecret.DelFromConfigMap` | pkg/authenticator/ecrsecret.go:110-131 | the text becomes some printing of the set without the name, and an empty text loses its key, unless the config map holds no data, which panics |
| `Driver.AddedAddsOneName` | pkg/authenticator/ecrsecret.go:61-79 | read back as a relation, the book gains exactly one pair, for every printing order |
| `Driver.RemovedRemovesOneName` | pkg/authenticator/ecrsecret.go:110-131 | the book loses exactly one pair, and a key disappears exactly when only the empty name is left in its set |
| `Driver.OtherNamesStay` | pkg/authenticator/ecrsecret.go:61-131 | no operation touches another name in any namespace |
| `Driver.InstalledReleasesAreListed` | pkg/driver/helmdriver.go:110-215 | over every history a release whose last install succeeded and that was not uninstalled is listed under its namespace |
| `Driver.ClearedReleasesAreNotListed` | pkg/driver/helmdriver.go:122-215 | over every history a release that was uninstalled, or whose first install failed, is not listed there until the next operation on it |
| `Driver.BookIsNeverEmpty` | pkg/bundle/client.go:201-206 | over every history the placeholder entered on creation keeps the book from becoming empty, so no operation panics on it |
| `CommaSets.PrintedSetReadsBack` | pkg/csset/csset.go:14-61 | a comma-free set printed in any order reads back as itself, except the set of just the empty name; the text is empty exactly for subsets of that one |
| `CommaSets.CSSet.constructor` | pkg/csset/csset.go:14-26 | the set is that of the comma-separated pieces |
| `CommaSets.CSSet.String` | pkg/csset/csset.go:53-61 | some enumeration of the set, each name once, joined by commas |
| `Signature.Filter` | pkg/signature/manifest.go:64-72 | in place, the kept prefix is the non-empty strings in order |
| `Signature.DecodeSelectorsText` | pkg/signature/manifest.go:74-90 | all non-empty lines parse to selectors that start with a key, or none is returned |
| `Signature.ParseAllIff` | pkg/signature/manifest.go:80-88 | the lines decode exactly when each parses to a selector that starts with a key, and then one by one in order |
| `Signature.NonEmptyOfConcat` | pkg/signature/manifest.go:64-72 | filtering distributes over concatenation and keeps exactly the non-empty strings |
| `Signature.PruneInRounds` | pkg/signature/manifest.go:57-59 | deleting by one set of key and iterate selectors and then by another is deleting by both at once |
| `Signature.PruneCommutes` | pkg/signature/manifest.go:57-59 | deletions commute and are idempotent |
| `Paths.PruneAt` | pkg/signature/manifest.go:57-59 | after a deletion a path is there exactly when it was there and no selector selects a part of it; scalars keep their value and arrays their length, unless their elements are selected |
| `Paths.FollowsIff` | pkg/signature/manifest.go:130-138 | a selector meets no type error exactly when it fits every value met on its way |
| `Signature.FollowsAlike` | pkg/signature/manifest.go:107-138 | a stable selector meets a type error in both or in neither of two manifests that agree on what is signed |
| `Signature.PruneAlike` | pkg/signature/manifest.go:41-60 | after deleting what is always excluded, two such manifests differ at most in annotations that are not signed, whatever else is deleted |
| `Signature.CanonicalIfFollowed` | pkg/signature/manifest.go:107-145 | manifests that agree on what is signed have the same canonical tree as soon as the excludes meet a type error in both or in neither |
| `Signature.CanonicalAlike` | pkg/signature/manifest.go:107-145 | such manifests have the same canonical tree under stable excludes |
| `Signature.CanonicalCovers` | pkg/signature/manifest.go:41-60 | two bundles have the same canonical tree exactly when, after deletion of what is excluded, they differ at most in annotations that are not signed |
| `Paths.CanonicalCoversPaths` | pkg/signature/manifest.go:41-60 | bundles with the same canonical tree have the same thing at every path that is neither excluded nor an unsigned annotation |
| `Paths.PackagesAreCovered` | generatebundlefile/bundle.go:22-33 | under the published excludes they have equally many packages, which agree everywhere outside source registry and repository |
| `Signature.SignatureCovers` | pkg/signature/manifest.go:92-145 | a manifest with the same signed tree as a bundle whose excludes annotation is signed has the same excludes, and differs only where they allow it |
| `Signature.TypedFollowsAlike` | pkg/signature/manifest.go:107-138 | in manifests whose changeable values have their types, a selector that does not vary meets a type error in both or in neither |
| `Signature.ExcludeIsStableIff` | pkg/signature/manifest.go:41-60 | over manifests whose changeable values have their types, an exclude selector keeps the canonical tree independent of everything that is not signed exactly when it does not vary: an explicit test on the selector |
| `Signature.DefaultExcludesAreStable` | generatebundlefile/bundle.go:22-33 | the excludes of published bundles are of that kind |
| `Signature.SignedTreeIsStable` | pkg/signature/manifest.go:92-145 | excludes annotation and canonical tree together do not depend on status, generated metadata, minimum version or other annotations |
| `Signature.SerializeBundle` | generatebundlefile/bundle.go:146-162 | the published document is the bundle without status and generated metadata |
| `Signature.PublishingIsPruning` | generatebundlefile/bundle.go:146-162 | publishing is itself a deletion by always-excluded selectors |
| `Signature.PublishedAgrees` | generatebundlefile/bundle.go:103-162 | signing and publishing a bundle touches nothing that is signed |
| `Signature.SignedBundleVerifies` | pkg/signature/manifest.go:149-178 | a signed and published bundle validates, and so does every manifest that agrees with it and carries the signature |
| `Signature.ValidIff` | pkg/signature/manifest.go:149-178 | a manifest is valid exactly when excludes decode, a signature is there, the tree can be filtered, and the signature checks against it |
| `Signature.ValidManifestIsTheSigned` | pkg/signature/manifest.go:149-178 | with an ideal signature, what validates with a bundle's signature has that bundle's signed tree |
| `Schemas.GuessedIntegers` | scripts/generate_schema.py:23-29 | keys that end in port or seconds, or have timeout anywhere, are integers, however capitalised |
| `Schemas.GuessedArrays` | scripts/generate_schema.py:27-33 | keys that end in ranges, ips or list are arrays, unless they also speak of a timeout |
| `Schemas.GuessedTextsIff` | scripts/generate_schema.py:23-36 | a key is guessed a string exactly when none of these patterns applies |
| `Schemas.GuessIgnoresCase` | scripts/generate_schema.py:23-36 | capitals make no difference |
| `Schemas.GeneratesIff` | scripts/generate_schema.py:72-184 | generation succeeds exactly on values without an array that starts with null, and records the value's type |
| `Schemas.ValidatesIffFits` | scripts/generate_schema.py:72-184 | a generated schema accepts exactly the values of the form its example prescribes |
| `Schemas.OwnSchemaAcceptsIffUniform` | scripts/generate_schema.py:72-195 | a value validates against its own schema exactly when the elements of each array fit the first |
| `Schemas.RegularIsUniform` | scripts/generate_schema.py:100-122 | that includes every value whose array elements share the shape of the first |
| `Schemas.MixedArraysFail` | scripts/generate_schema.py:105-120 | a mixed array is rejected by its own schema, and one that starts with null has none |
| `Kubelet.UpdateKubeletArguments` | credentialproviderpackage/pkg/configurator/linux/linux.go:236-257 | each flag the line lacks is added if its helper succeeded |
| `Kubelet.UpdateConfigFile` | credentialproviderpackage/pkg/configurator/linux/linux.go:67-97 | the loop over the lines, in place, computes the rewritten text |
| `Kubelet.LinesOfRewrite` | credentialproviderpackage/pkg/configurator/linux/linux.go:73-94 | the lines of the result, including the blank line that each changed line brings |
| `Kubelet.RewriteIsIdempotent` | credentialproviderpackage/pkg/configurator/linux/linux.go:67-97 | rewriting twice is rewriting once, for every text and every fixed outcome of the helpers |
| `Kubelet.UnchangedIff` | credentialproviderpackage/pkg/configurator/linux/linux.go:67-97 | a file is left alone exactly when it has a KUBELET_EXTRA_ARGS line and no such line lacks an argument |
| `Kubelet.LinesGetArguments` | credentialproviderpackage/pkg/configurator/linux/linux.go:73-92 | each KUBELET_EXTRA_ARGS line gets, with their values, exactly the flags it lacks and then an empty line behind it, other lines stay, and a file without such a line gets one at its end |
| `Kubelet.FlagsArePresent` | credentialproviderpackage/pkg/configurator/linux/linux.go:67-97 | when both helpers succeed there is a KUBELET_EXTRA_ARGS line and each carries both flags |
| `Kubelet.LinesSurvive` | credentialproviderpackage/pkg/configurator/linux/linux.go:73-94 | every original line survives in order as a prefix of an output line |
| `BundleNames.GeneratedNameReadsBack` | generatebundlefile/input.go:147-152 | the name generated for Kubernetes x.minor parses to (1, minor, year), with leading zeros of the date read correctly |
| `BundleNames.GeneratedNameHasAllParts` | generatebundlefile/input.go:147-152 | minor version, year, month, day and epoch all read back from the name, in that order |
| `BundleNames.GeneratedNameIsInjective` | generatebundlefile/input.go:147-152 | different versions, dates or epochs give different names |
| `BundleNames.NameReadsBack` | api/v1alpha1/packagebundle.go:110-131 | every name of a major, minor and build number, with or without v and whatever follows, parses to them |
| `BundleNames.GeneratedNameMatches` | api/v1alpha1/packagebundle.go:110-156 | such a name matches exactly servers of version 1.minor |
| `BundleNames.GeneratedNameIsAdmitted` | pkg/webhook/packagebundlecontroller_webhook.go:77-146 | such a name is admitted as active bundle exactly on clusters of that version that hold the bundle, and an error exactly when the cluster cannot be asked |
| `BundleNames.AdmissionOfOthers` | pkg/webhook/packagebundlecontroller_webhook.go:80-113 | clearing the active bundle is always admitted, naming one that is not stored never |
| `BundleNames.HandleInner` | pkg/webhook/packagebundlecontroller_webhook.go:77-146 | the search loop and its outcomes: allowed, denied or an error |
| `Artifacts.ParseArtifactFromURI` | pkg/registry/artifact.go:27-54 | the branches compute the parse function |
| `Artifacts.ParsesIff` | pkg/registry/artifact.go:27-54 | a text parses exactly when, after its first slash, it has an at sign or a colon |
| `Artifacts.UriForms` | pkg/registry/artifact.go:27-54 | registry/repository@digest and registry/repository:tag parse to their parts |
| `Artifacts.PrintOfParse` | pkg/registry/artifact.go:27-68 | printing a parsed URI returns it exactly when its digest part is not empty |
| `Artifacts.ParseOfPrint` | pkg/registry/artifact.go:27-68 | parsing a printed artifact returns it exactly when only one of tag and digest is set and the parts avoid the separators looked for before them |
| `Artifacts.ParsedIsPrintable` | pkg/registry/artifact.go:27-68 | URIs without an empty digest parse to such artifacts |
| `Images.Describe` | generatebundlefile/ecr.go:46-60 | an error is reported exactly when the first page fails |
| `Images.DescribeIsComplete` | generatebundlefile/ecr.go:46-60 | the whole repository is seen exactly when the first page arrives and nothing is lost behind a later failure |
| `Images.ImageTagFilter` | generatebundlefile/ecr_helper.go:72-82 | the nested loops give each image once per matching tag, in order |
| `Images.FilteredMembers` | generatebundlefile/ecr_helper.go:72-82 | exactly the images with a matching tag are kept |
| `Images.GetLatestImageSha` | generatebundlefile/ecr_helper.go:85-101 | the first eligible image of greatest push time, or a panic; never the error |
| `Images.LatestSelection` | generatebundlefile/ecr_helper.go:72-101 | over filter and search together: a panic exactly when a matching image has no media type or no candidate was pushed after the zero time, else the first candidate of greatest push time |
| `Images.RemoveDuplicates` | generatebundlefile/ecr_helper.go:20-30 | the loop with its map of names seen keeps the first version of each name |
| `Images.KeepsFirstOccurrences` | generatebundlefile/ecr_helper.go:20-30 | the list is exactly the first occurrences, in order, reduced to name and digest |
| `Images.NamesAreDistinct` | generatebundlefile/ecr_helper.go:20-30 | names are distinct and are those of the input |
| `Images.ListedIffFirst` | generatebundlefile/ecr_helper.go:20-30 | a version, digest included, is listed exactly when it is the first of its name |
| `Images.PrefixOfLatestTag` | generatebundlefile/ecr.go:106-108 | the prefix taken from P-latest is P exactly when P does not contain "-latest" |
| `Images.LookupVersion` | generatebundlefile/ecr.go:66-123 | one requested version: exact tag, latest, P-latest, or a name that is ignored |
| `Images.ExactIff` | generatebundlefile/ecr.go:67-90 | a plain tag yields, under its name, the digests of exactly the tagged manifests described for it, and panics exactly when a media type or such a digest is missing |
| `Images.PlainTagIsAnswered` | generatebundlefile/ecr.go:67-125 | so its name is in the final list |
| `Images.GetShaForInputs` | generatebundlefile/ecr.go:62-127 | all versions in order, ended by the first failure, without duplicate names |
| `Images.EveryVersionIsAnswered` | generatebundlefile/ecr.go:66-123 | a successful request has answered every version, in order |
| `Images.LatestInputIsAnswered` | generatebundlefile/ecr.go:92-125 | a successful request for latest or P-latest finds the first image of greatest push time among the manifests tagged P and latest, lists its name, and lists its digest exactly when no earlier answer took the name for another |
| `Images.LatestInputIsListed` | generatebundlefile/ecr.go:62-127 | where all replies describe one repository in which a tag belongs to one image, that image is listed, digest included |
| `Matching.PackageMatches` | api/v1alpha1/packagebundle.go:169-198 | the loops over two maps hold exactly when registry, repository and the sets of version keys coincide |
| `Matching.MatchesIsEquivalence` | api/v1alpha1/packagebundle.go:169-198 | an equivalence that does not look at order or repetition |
| `Matching.KeysDiffer` | api/v1alpha1/packagebundle.go:223-225 | keys are equal exactly when name and digest are, if the names do not overlap or the digests are space-free |
| `Matching.KeyDeterminesVersion` | api/v1alpha1/packagebundle.go:223-225 | exact: keys tell two names apart, whatever their digests, exactly when neither name followed by a space begins the other |
| `Matching.MatchesIffSameVersions` | api/v1alpha1/packagebundle.go:169-225 | unless names overlap and a digest holds a space, matching is equality of place and (name, digest) sets |
| `Matching.MatchingIsExactIff` | api/v1alpha1/packagebundle.go:169-225 | exact: for a set of names, matching is that equality over all sources with such names if and only if no two of the names overlap |
| `Matching.SpacesConfuse` | api/v1alpha1/packagebundle.go:223-225 | one such input, on which two different versions match |

## Left out

- Several namespaces at once: a model world is one namespace with its target cluster; what packages of other namespaces do to Helm appears as an outside change of the releases.
- Staleness of the controller's cache: a reconcile reads and writes its package in one step, and lists packages from the store as it is. The evaluation order in the client's package listing, which Go leaves open, is taken to return the filled list.
- YAML text: a configuration is represented by what the parser makes of it, a document or an error. Status details are structured values instead of formatted texts.
- Requeue times, logging, metrics, `time.Sleep`, cron jobs and secrets in namespaces: scheduling and plumbing.
- `UpgradesAvailable`, image lists, schemas and `WorkloadOnly` of bundles, and namespace creation by Helm: fields these steps only carry along.
- Unicode case folding: names are compared ignoring the case of ASCII letters only, and the schema script's lower-casing likewise.
- `ProcessBundle` and `isCompatibleWith`: a chain of independent tests around a version comparison of an unseen library; it would only add easy members.
- BundleController: bundles are keyed by name in one namespace, and errors of the config map, the cluster namespace and the secret are one input, since each ends the step in the same way.
- BundleController.Converges: assumes that a bundle downloaded for a tag is named by it and that the latest bundle has a name.
- Driver.InstalledReleasesAreListed: assumes a working config map, one namespace per release, and comma-free non-empty names, as the book has no way to express more.
- Helm itself: a release's stored configuration is exactly the values passed in, and whether a failed revision is kept is an input.
- Rounds.Converges: assumes a fixed bundle, no failures, no object that bears the name of another bundle package, and configurations that leave pull secrets to the driver and name a source registry, if any, as text; `Convergence.DriftFixpointIff` shows what happens otherwise to pull secrets, and `Runs.KnotNeverInstalls` what happens on cycles.
- Signature: hash, ECDSA and base64 are opaque, and of jq only key and iterate selectors are modelled.
- Signature.CanonicalAlike: a jq type error, which the code marshals and hashes in place of a tree, is no tree in the model, because what the unseen library marshals it to is unknown; that it arises for both manifests or for neither is proved.
- Signature.SignedBundleVerifies: assumes excludes that reach through nothing that may change, for manifests of any types.
- Schemas: titles, defaults and examples, which assert nothing, the preservation of an old schema and prompting. Dictionaries the script fills by assignment are map comprehensions.
- Kubelet.RewriteIsIdempotent: assumes a configuration directory without a line break, like the constant the constructor sets. File reading and writing and the helpers' own work are inputs.
- BundleNames: years and minors fit Go's int, the date is given by its numbers, and the epoch is not negative. The packages that `NewBundleFromInput` collects are those of `Images.GetShaForInputs`; its loop over projects is not modelled.
- Images.GetShaForInputs: takes what `Describe` returns for each version as its input.
- `LessThan` and `BundlesByVersion`: three comparisons joined by or, which do not order bundles.
- Webhooks for packages, token refresher, credential injection, OCI pulls, command-line tools and generated code: network and plumbing.
