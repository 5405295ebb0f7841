/** When two package sources hold the same versions (api/v1alpha1/packagebundle.go). */
module Matching {
  import opened Strings
  import opened Bundles

  function Key(v: SourceVersion): string { v.name + " " + v.digest }

  ghost function Keys(versions: seq<SourceVersion>): set<string> {
    set v | v in versions :: Key(v)
  }

  ghost function Identities(versions: seq<SourceVersion>): set<(string, string)> {
    set v | v in versions :: (v.name, v.digest)
  }

  /** The same place and the same set of version keys. */
  ghost predicate Matches(a: BundlePackageSource, b: BundlePackageSource) {
    a.registry == b.registry && a.repository == b.repository && Keys(a.versions) == Keys(b.versions)
  }

  /** PackageMatches, with its two maps and four loops. */
  method PackageMatches(s: BundlePackageSource, other: BundlePackageSource) returns (matches: bool)
    ensures matches <==> Matches(s, other)
  {
    if s.registry != other.registry { return false; }
    if s.repository != other.repository { return false; }
    var mine := CollectKeys(s.versions);
    for i := 0 to |other.versions|
      invariant forall k :: 0 <= k < i ==> Key(other.versions[k]) in mine
    {
      if Key(other.versions[i]) !in mine {
        assert Key(other.versions[i]) in Keys(other.versions);
        return false;
      }
    }
    var theirs := CollectKeys(other.versions);
    var pending := mine.Keys;
    while pending != {}
      invariant pending <= mine.Keys
      invariant forall key :: key in mine && key !in pending ==> key in theirs
    {
      var key :| key in pending;
      if key !in theirs { return false; }
      pending := pending - {key};
    }
    return true;
  }

  method CollectKeys(versions: seq<SourceVersion>) returns (keys: map<string, ()>)
    ensures keys.Keys == Keys(versions)
  {
    keys := map[];
    for i := 0 to |versions|
      invariant keys.Keys == Keys(versions[..i])
    {
      assert versions[..i + 1] == versions[..i] + [versions[i]];
      keys := keys[Key(versions[i]) := ()];
    }
    assert versions[..|versions|] == versions;
  }

  /** Matching is an equivalence that looks only at which versions occur, not at their order or number. */
  lemma MatchesIsEquivalence(a: BundlePackageSource, b: BundlePackageSource, c: BundlePackageSource)
    ensures Matches(a, a)
    ensures Matches(a, b) <==> Matches(b, a)
    ensures Matches(a, b) && Matches(b, c) ==> Matches(a, c)
    ensures var samePlace := a.registry == b.registry && a.repository == b.repository;
            samePlace && (forall v :: v in a.versions <==> v in b.versions) ==> Matches(a, b)
  {
  }

  /** One name, followed by a space, begins the other. */
  predicate Overlap(n: string, m: string) { n + " " <= m || m + " " <= n }

  /** With names that do not overlap, or with space-free digests, a key determines its version. */
  lemma KeysDiffer(v: SourceVersion, w: SourceVersion)
    requires !Overlap(v.name, w.name) || (Free(v.digest, ' ') && Free(w.digest, ' '))
    ensures Key(v) == Key(w) <==> v.name == w.name && v.digest == w.digest
  {
    if Key(v) == Key(w) {
      if |v.name| < |w.name| {
        LongerNameOverlaps(v, w);
      } else if |w.name| < |v.name| {
        LongerNameOverlaps(w, v);
      } else {
        var n := |v.name|;
        assert v.name == Key(v)[..n] && w.name == Key(w)[..n];
        assert v.digest == Key(v)[n + 1..] && w.digest == Key(w)[n + 1..];
      }
    }
  }

  /** Where equal keys hide different names, the shorter name begins the longer one, and its
      digest holds a space. */
  lemma LongerNameOverlaps(v: SourceVersion, w: SourceVersion)
    requires Key(v) == Key(w) && |v.name| < |w.name|
    ensures v.name + " " <= w.name && !Free(v.digest, ' ')
  {
    var n, m := |v.name|, |w.name|;
    assert Key(v)[..n + 1] == v.name + " " && Key(w)[..n + 1] == w.name[..n + 1];
    assert v.digest[m - n - 1] == Key(v)[m] == Key(w)[m] == ' ';
  }

  /** For names alone this is exact: keys tell two names apart, whatever their digests,
      exactly when the names do not overlap. */
  lemma KeyDeterminesVersion(n: string, m: string)
    ensures !Overlap(n, m) <==>
            forall d, e :: Key(SourceVersion(n, d, [])) == Key(SourceVersion(m, e, [])) ==> n == m && d == e
  {
    if !Overlap(n, m) {
      forall d, e | Key(SourceVersion(n, d, [])) == Key(SourceVersion(m, e, [])) ensures n == m && d == e {
        KeysDiffer(SourceVersion(n, d, []), SourceVersion(m, e, []));
      }
    } else {
      var d, e := Confused(n, m);
    }
  }

  /** Overlapping names have versions with the same key. */
  lemma Confused(n: string, m: string) returns (d: string, e: string)
    requires Overlap(n, m)
    ensures Key(SourceVersion(n, d, [])) == Key(SourceVersion(m, e, [])) && n != m
  {
    if n + " " <= m {
      d, e := m[|n| + 1..] + " ", "";
      assert n + " " + m[|n| + 1..] == m;
      assert n + " " + d == m + " " + e;
    } else {
      d, e := "", n[|m| + 1..] + " ";
      assert m + " " + n[|m| + 1..] == n;
      assert n + " " + d == m + " " + e;
    }
  }

  ghost predicate SameVersions(a: BundlePackageSource, b: BundlePackageSource) {
    a.registry == b.registry && a.repository == b.repository && Identities(a.versions) == Identities(b.versions)
  }

  /** Unless names overlap and a digest holds a space, sources match exactly when place and
      (name, digest) sets agree. */
  lemma MatchesIffSameVersions(a: BundlePackageSource, b: BundlePackageSource)
    requires forall v, w :: v in a.versions && w in b.versions ==>
               !Overlap(v.name, w.name) || (Free(v.digest, ' ') && Free(w.digest, ' '))
    ensures Matches(a, b) <==> SameVersions(a, b)
  {
    hide Key, Overlap;
    forall v, w | v in a.versions && w in b.versions
      ensures Key(v) == Key(w) <==> v.name == w.name && v.digest == w.digest
    {
      KeysDiffer(v, w);
    }
    if Keys(a.versions) == Keys(b.versions) {
      SameIdentities(a.versions, b.versions);
      SameIdentities(b.versions, a.versions);
    }
    if Identities(a.versions) == Identities(b.versions) {
      SameKeys(a.versions, b.versions);
      SameKeys(b.versions, a.versions);
    }
  }

  lemma SameIdentities(a: seq<SourceVersion>, b: seq<SourceVersion>)
    requires Keys(a) <= Keys(b)
    requires forall v, w :: v in a && w in b && Key(v) == Key(w) ==> v.name == w.name && v.digest == w.digest
    ensures Identities(a) <= Identities(b)
  {
    hide Key;
    forall v | v in a ensures (v.name, v.digest) in Identities(b) {
      assert Key(v) in Keys(b);
    }
  }

  lemma SameKeys(a: seq<SourceVersion>, b: seq<SourceVersion>)
    requires Identities(a) <= Identities(b)
    ensures Keys(a) <= Keys(b)
  {
    forall v | v in a ensures Key(v) in Keys(b) {
      assert (v.name, v.digest) in Identities(b);
    }
  }

  ghost predicate NamedFrom(s: BundlePackageSource, names: set<string>) {
    forall v :: v in s.versions ==> v.name in names
  }

  /** Exactly for sets of names without overlap is matching, over all sources with such names and
      any digests, equality of place and (name, digest) sets. */
  lemma MatchingIsExactIff(names: set<string>)
    ensures (forall n, m :: n in names && m in names ==> !Overlap(n, m)) <==>
            forall a, b :: NamedFrom(a, names) && NamedFrom(b, names) ==> (Matches(a, b) <==> SameVersions(a, b))
  {
    hide Key, Overlap, Matches, SameVersions;
    if forall n, m :: n in names && m in names ==> !Overlap(n, m) {
      forall a, b | NamedFrom(a, names) && NamedFrom(b, names) ensures Matches(a, b) <==> SameVersions(a, b) {
        MatchesIffSameVersions(a, b);
      }
    } else {
      var n, m :| n in names && m in names && Overlap(n, m);
      var d, e := Confused(n, m);
      var v, w := SourceVersion(n, d, []), SourceVersion(m, e, []);
      ConfusedSourcesMatch(v, w);
      assert NamedFrom(BundlePackageSource("", "", [v]), names) && NamedFrom(BundlePackageSource("", "", [w]), names);
    }
  }

  lemma ConfusedSourcesMatch(v: SourceVersion, w: SourceVersion)
    requires Key(v) == Key(w) && v.name != w.name
    ensures var a, b := BundlePackageSource("", "", [v]), BundlePackageSource("", "", [w]);
            Matches(a, b) && !SameVersions(a, b)
  {
    hide Key;
    assert Keys([v]) == {Key(v)} && Keys([w]) == {Key(w)};
    assert v in [v] && (v.name, v.digest) in Identities([v]);
    assert Identities([w]) == {(w.name, w.digest)};
  }

  /** For instance, a space can sit on either side of the cut. */
  lemma SpacesConfuse()
    ensures var a := BundlePackageSource("", "", [SourceVersion("a b", "c", [])]);
            var b := BundlePackageSource("", "", [SourceVersion("a", "b c", [])]);
            Matches(a, b) && !SameVersions(a, b)
  {
    var v, w := SourceVersion("a b", "c", []), SourceVersion("a", "b c", []);
    assert Key(v) == "a b c" && Key(w) == "a b c";
    assert |v.name| == 3 && |w.name| == 1;
    ConfusedSourcesMatch(v, w);
  }
}
