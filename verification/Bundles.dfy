/** Package bundles and the resolution of package names and versions in them
    (api/v1alpha1/packagebundle.go). */
module Bundles {
  import opened Wrappers

  datatype SourceVersion = SourceVersion(name: string, digest: string, dependencies: seq<string>)

  datatype BundlePackageSource =
    BundlePackageSource(registry: string, repository: string, versions: seq<SourceVersion>)

  datatype BundlePackage = BundlePackage(name: string, source: BundlePackageSource)

  datatype PackageBundle = PackageBundle(name: string, packages: seq<BundlePackage>)

  datatype OCISource = OCISource(version: string, registry: string, repository: string, digest: string)

  const LATEST := "latest"

  function FoldChar(c: char): char {
    if 'A' <= c <= 'Z' then (c as int + 32) as char else c
  }

  predicate EqualFold(a: string, b: string) {
    |a| == |b| && forall i :: 0 <= i < |a| ==> FoldChar(a[i]) == FoldChar(b[i])
  }

  /** Names match when they differ at most in the case of letters. */
  lemma EqualFoldIff(a: string, b: string)
    ensures EqualFold(a, b) <==>
            |a| == |b| && forall i :: 0 <= i < |a| ==>
              || a[i] == b[i]
              || ('A' <= a[i] <= 'Z' && b[i] as int == a[i] as int + 32)
              || ('A' <= b[i] <= 'Z' && a[i] as int == b[i] as int + 32)
  {
    assert forall c, d :: FoldChar(c) == FoldChar(d) <==>
             || c == d
             || ('A' <= c <= 'Z' && d as int == c as int + 32)
             || ('A' <= d <= 'Z' && c as int == d as int + 32);
  }

  /** The first package whose name matches when case is ignored. */
  function PackageNamed(packages: seq<BundlePackage>, name: string): (r: Option<BundlePackage>)
    ensures r.Some? ==> r.value in packages && EqualFold(r.value.name, name)
    ensures r.None? <==> forall p :: p in packages ==> !EqualFold(p.name, name)
  {
    if packages == [] then None
    else if EqualFold(packages[0].name, name) then Some(packages[0])
    else PackageNamed(packages[1..], name)
  }

  predicate IsFirstNamed(packages: seq<BundlePackage>, name: string, i: nat) {
    && i < |packages| && EqualFold(packages[i].name, name)
    && forall j :: 0 <= j < i ==> !EqualFold(packages[j].name, name)
  }

  lemma {:induction false} PackageNamedIsFirst(packages: seq<BundlePackage>, name: string, i: nat)
    requires IsFirstNamed(packages, name, i)
    ensures PackageNamed(packages, name) == Some(packages[i])
  {
    hide EqualFold;
    if i > 0 { PackageNamedIsFirst(packages[1..], name, i - 1); }
  }

  lemma {:induction false} FirstNamedExists(packages: seq<BundlePackage>, name: string) returns (i: nat)
    requires PackageNamed(packages, name).Some?
    ensures IsFirstNamed(packages, name, i)
  {
    hide EqualFold;
    if EqualFold(packages[0].name, name) {
      i := 0;
    } else {
      i := FirstNamedExists(packages[1..], name);
      i := i + 1;
    }
  }

  /** Resolving the name of a resolved package gives that package back, so a
      dependency package created under the bundle's spelling resolves to the same entry. */
  lemma {:induction false} ResolvedNameResolvesToItself(packages: seq<BundlePackage>, name: string)
    requires PackageNamed(packages, name).Some?
    ensures PackageNamed(packages, PackageNamed(packages, name).value.name) == PackageNamed(packages, name)
  {
    if !EqualFold(packages[0].name, name) {
      ResolvedNameResolvesToItself(packages[1..], name);
      var q := PackageNamed(packages[1..], name).value;
      assert EqualFold(q.name, name);
      assert !EqualFold(packages[0].name, q.name);
    }
  }

  predicate Selects(v: SourceVersion, wanted: string) {
    v.name == wanted || v.digest == wanted || wanted == LATEST
  }

  /** The first version selected by name, by digest, or by the word "latest". */
  function VersionNamed(versions: seq<SourceVersion>, wanted: string): (r: Option<SourceVersion>)
    ensures r.Some? ==> r.value in versions
    ensures wanted == LATEST && versions != [] ==> r == Some(versions[0])
    ensures r.None? <==> forall v :: v in versions ==> !Selects(v, wanted)
  {
    if versions == [] then None
    else if Selects(versions[0], wanted) then Some(versions[0])
    else VersionNamed(versions[1..], wanted)
  }

  predicate IsFirstSelected(versions: seq<SourceVersion>, wanted: string, i: nat) {
    && i < |versions| && Selects(versions[i], wanted)
    && forall j :: 0 <= j < i ==> !Selects(versions[j], wanted)
  }

  lemma {:induction false} VersionNamedIsFirst(versions: seq<SourceVersion>, wanted: string, i: nat)
    requires IsFirstSelected(versions, wanted, i)
    ensures VersionNamed(versions, wanted) == Some(versions[i])
  {
    hide Selects;
    if i > 0 { VersionNamedIsFirst(versions[1..], wanted, i - 1); }
  }

  lemma {:induction false} FirstSelectedExists(versions: seq<SourceVersion>, wanted: string) returns (i: nat)
    requires VersionNamed(versions, wanted).Some?
    ensures IsFirstSelected(versions, wanted, i)
  {
    hide Selects;
    if Selects(versions[0], wanted) {
      i := 0;
    } else {
      i := FirstSelectedExists(versions[1..], wanted);
      i := i + 1;
    }
  }

  /** The packages a list of dependency names stands for, or None when one of them is not in the bundle. */
  function Resolved(packages: seq<BundlePackage>, names: seq<string>): (r: Option<seq<BundlePackage>>)
    ensures r.Some? ==> |r.value| == |names|
    ensures r.Some? ==> forall i :: 0 <= i < |names| ==> PackageNamed(packages, names[i]) == Some(r.value[i])
    ensures r.Some? <==> forall n :: n in names ==> PackageNamed(packages, n).Some?
  {
    if names == [] then Some([])
    else
      assert names[0] in names && forall n :: n in names <==> n == names[0] || n in names[1..];
      match PackageNamed(packages, names[0])
      case None => None
      case Some(p) =>
        match Resolved(packages, names[1..])
        case None => None
        case Some(rest) => Some([p] + rest)
  }

  function GetOCISource(p: BundlePackage, v: SourceVersion): OCISource {
    OCISource(v.name, p.source.registry, p.source.repository, v.digest)
  }

  // The search loops of the source, against the functions above.

  method FindPackage(b: PackageBundle, name: string) returns (r: Option<BundlePackage>)
    ensures r == PackageNamed(b.packages, name)
  {
    for i := 0 to |b.packages|
      invariant PackageNamed(b.packages, name) == PackageNamed(b.packages[i..], name)
    {
      if EqualFold(b.packages[i].name, name) {
        return Some(b.packages[i]);
      }
    }
    return None;
  }

  method FindVersion(p: BundlePackage, wanted: string) returns (r: Option<SourceVersion>)
    ensures r == VersionNamed(p.source.versions, wanted)
  {
    var vs := p.source.versions;
    for i := 0 to |vs|
      invariant VersionNamed(vs, wanted) == VersionNamed(vs[i..], wanted)
    {
      if vs[i].name == wanted || vs[i].digest == wanted || wanted == LATEST {
        return Some(vs[i]);
      }
    }
    return None;
  }

  method GetDependencies(b: PackageBundle, v: SourceVersion) returns (r: Option<seq<BundlePackage>>)
    ensures r == Resolved(b.packages, v.dependencies)
  {
    var found: seq<BundlePackage> := [];
    var names := v.dependencies;
    for i := 0 to |names|
      invariant |found| == i
      invariant forall k :: 0 <= k < i ==> PackageNamed(b.packages, names[k]) == Some(found[k])
    {
      var p := FindPackage(b, names[i]);
      if p.None? {
        assert names[i] in names;
        return None;
      }
      found := found + [p.value];
    }
    assert Resolved(b.packages, names).Some?;
    assert found == Resolved(b.packages, names).value;
    return Some(found);
  }
}
