/** What deletion by selectors does, path by path: an account of jq's `del` that does not
    mention how it is computed (pkg/signature/manifest.go). */
module Paths {
  import opened Wrappers
  import opened Json
  import opened Signature

  /** A step into a tree: to a field of an object or an element of an array. */
  datatype Place = Field(key: string) | Element(index: nat)

  type Path = seq<Place>

  /** The value at a path, if there is one. */
  function At(t: Json, p: Path): Option<Json>
    decreases |p|
  {
    if p == [] then Some(t)
    else
      match p[0]
      case Field(k) => if t.Obj? && k in t.fields then At(t.fields[k], p[1..]) else None
      case Element(i) => if t.Arr? && i < |t.elems| then At(t.elems[i], p[1..]) else None
  }

  predicate StepMatches(s: Step, x: Place) {
    s == Iterate || (x.Field? && s == Key(x.key))
  }

  /** The selector selects exactly this path. */
  predicate Selects(s: Selector, p: Path) {
    |s| == |p| && forall i :: 0 <= i < |s| ==> StepMatches(s[i], p[i])
  }

  /** Some selector selects the path or a part of the way to it. */
  ghost predicate Deleted(ss: set<Selector>, p: Path) {
    exists s, n :: s in ss && 0 < n <= |p| && Selects(s, p[..n])
  }

  /** Equal up to what is inside: scalars are equal, objects and arrays alike. */
  predicate SameHead(v: Json, w: Json) {
    match v
    case Obj(_) => w.Obj?
    case Arr(_) => w.Arr?
    case _ => v == w
  }

  /** What remains of the selectors one step into the tree. */
  function Inside(ss: set<Selector>, x: Place): set<Selector> {
    match x
    case Field(k) => Below(ss, k)
    case Element(_) => Within(ss)
  }

  predicate CutsPlace(ss: set<Selector>, x: Place) {
    match x
    case Field(k) => Cuts(ss, k)
    case Element(_) => [Iterate] in ss
  }

  lemma SelectsStep(s: Selector, p: Path, n: nat)
    requires 1 < n <= |p| && |s| > 1
    ensures Selects(s, p[..n]) <==> StepMatches(s[0], p[0]) && Selects(s[1..], p[1..][..n - 1])
  {
    assert p[1..][..n - 1] == p[..n][1..];
    var q := p[..n];
    if StepMatches(s[0], p[0]) && Selects(s[1..], q[1..]) {
      forall i | 0 <= i < |s| ensures StepMatches(s[i], q[i]) {
        if i > 0 { assert s[i] == s[1..][i - 1] && q[i] == q[1..][i - 1]; }
      }
    }
  }

  lemma CutsIff(ss: set<Selector>, p: Path)
    requires p != []
    ensures CutsPlace(ss, p[0]) <==> exists s :: s in ss && Selects(s, p[..1])
  {
    if CutsPlace(ss, p[0]) {
      var s: Selector := if [Iterate] in ss then [Iterate] else [Key(p[0].key)];
      assert s in ss && Selects(s, p[..1]);
    }
    if s :| s in ss && Selects(s, p[..1]) {
      assert s == [s[0]] && StepMatches(s[0], p[..1][0]);
    }
  }

  /** A path is deleted by its first step, or by what remains of the selectors after it. */
  lemma DeletedStep(ss: set<Selector>, p: Path)
    requires p != []
    ensures Deleted(ss, p) <==> CutsPlace(ss, p[0]) || Deleted(Inside(ss, p[0]), p[1..])
  {
    hide CutsPlace, Selects;
    CutsIff(ss, p);
    if Deleted(ss, p) && !CutsPlace(ss, p[0]) {
      var s, n :| s in ss && 0 < n <= |p| && Selects(s, p[..n]);
      SelectorLength(s, p[..n]);
      SelectsStep(s, p, n);
      InsideHas(ss, p[0], s);
      assert s[1..] in Inside(ss, p[0]) && Selects(s[1..], p[1..][..n - 1]);
    }
    if Deleted(Inside(ss, p[0]), p[1..]) {
      var r, m :| r in Inside(ss, p[0]) && 0 < m <= |p[1..]| && Selects(r, p[1..][..m]);
      var s := InsideFrom(ss, p[0], r);
      SelectsStep(s, p, m + 1);
    }
  }

  lemma SelectorLength(s: Selector, p: Path)
    requires Selects(s, p)
    ensures |s| == |p|
  {
  }

  lemma InsideHas(ss: set<Selector>, x: Place, s: Selector)
    requires s in ss && |s| > 1 && StepMatches(s[0], x)
    ensures s[1..] in Inside(ss, x)
  {
  }

  lemma InsideFrom(ss: set<Selector>, x: Place, r: Selector) returns (s: Selector)
    requires r in Inside(ss, x)
    ensures s in ss && |s| > 1 && StepMatches(s[0], x) && s[1..] == r
  {
    if x.Field? {
      s :| s in ss && |s| > 1 && s[0] in {Key(x.key), Iterate} && s[1..] == r;
    } else {
      s :| s in ss && |s| > 1 && s[0] == Iterate && s[1..] == r;
    }
  }

  /** Deletion, path by path: a path is there afterwards exactly when it was there and no selector
      selects it or a part of the way to it; the value there keeps its kind, scalars their value,
      and arrays their length unless their elements are selected. */
  lemma {:induction false} PruneAt(t: Json, ss: set<Selector>, p: Path)
    ensures At(Prune(t, ss), p).Some? <==> At(t, p).Some? && !Deleted(ss, p)
    ensures At(Prune(t, ss), p).Some? ==>
              var before, after := At(t, p).value, At(Prune(t, ss), p).value;
              && SameHead(before, after)
              && (before.Arr? ==>
                    |after.elems| == if Deleted(ss, p + [Element(0)]) then 0 else |before.elems|)
    decreases |p|
  {
    if p == [] {
      PruneHead(t, ss);
      assert p + [Element(0)] == [Element(0)];
    } else {
      DeletedStep(ss, p);
      var x, q := p[0], p[1..];
      if Steps(t, x) && !CutsPlace(ss, x) {
        PruneInto(t, ss, x);
        PruneAt(Into(t, x), Inside(ss, x), q);
        assert (p + [Element(0)])[1..] == q + [Element(0)];
        DeletedStep(ss, p + [Element(0)]);
      } else {
        PruneStops(t, ss, x);
      }
    }
  }

  predicate Steps(t: Json, x: Place) {
    match x
    case Field(k) => t.Obj? && k in t.fields
    case Element(i) => t.Arr? && i < |t.elems|
  }

  function Into(t: Json, x: Place): Json
    requires Steps(t, x)
  {
    match x
    case Field(k) => t.fields[k]
    case Element(i) => t.elems[i]
  }

  lemma PruneHead(t: Json, ss: set<Selector>)
    ensures SameHead(t, Prune(t, ss))
    ensures t.Arr? ==> |Prune(t, ss).elems| == if Deleted(ss, [Element(0)]) then 0 else |t.elems|
    ensures !Deleted(ss, [])
  {
    var p: Path := [Element(0)];
    CutsIff(ss, p);
    assert forall n :: 0 < n <= |p| ==> p[..n] == p[..1];
    assert Deleted(ss, p) <==> [Iterate] in ss by {
      if s :| s in ss && Selects(s, p[..1]) { assert Deleted(ss, p); }
    }
  }

  lemma PruneInto(t: Json, ss: set<Selector>, x: Place)
    requires Steps(t, x) && !CutsPlace(ss, x)
    ensures Steps(Prune(t, ss), x) && Into(Prune(t, ss), x) == Prune(Into(t, x), Inside(ss, x))
  {
  }

  lemma PruneStops(t: Json, ss: set<Selector>, x: Place)
    requires !Steps(t, x) || CutsPlace(ss, x)
    ensures !Steps(Prune(t, ss), x)
  {
  }

  // -------------------------------------------------------------- type errors

  /** What jq can do with a value at a step of a selector: null and objects have keys, of which a missing
      one is null; objects and arrays have members. */
  predicate Fits(v: Json, s: Selector)
    requires s != []
  {
    match s[0]
    case Key(k) => (v.Null? && Keys(s)) || (v.Obj? && (k !in v.fields ==> Keys(s)))
    case Iterate => v.Obj? || v.Arr?
  }

  /** A selector can be followed exactly when it fits every value met on the way. */
  lemma {:induction false} FollowsIff(t: Json, s: Selector)
    ensures Follows(t, s) <==>
            forall p: Path :: |p| < |s| && Selects(s[..|p|], p) && At(t, p).Some? ==> Fits(At(t, p).value, s[|p|..])
    decreases |s|
  {
    if s != [] {
      hide Fits, Selects;
      if Follows(t, s) {
        forall p: Path | |p| < |s| && Selects(s[..|p|], p) && At(t, p).Some?
          ensures Fits(At(t, p).value, s[|p|..])
        {
          FollowedFits(t, s, p);
        }
      } else {
        var p := Stuck(t, s);
      }
    }
  }

  lemma KeysFollowNull(s: Selector)
    ensures Follows(Null, s) <==> Keys(s)
  {
    if Keys(s) { NullHasKeys(s); } else { ScalarStops(Null, s); }
  }

  lemma KeysStep(s: Selector)
    requires s != [] && s[0].Key?
    ensures Keys(s) <==> Keys(s[1..])
  {
    assert s == [s[0]] + s[1..];
  }

  lemma FollowsFits(t: Json, s: Selector)
    requires s != [] && Follows(t, s)
    ensures Fits(t, s)
  {
    if s[0].Key? {
      KeysStep(s);
      KeysFollowNull(s[1..]);
    }
  }

  lemma SelectsFirst(s: Selector, p: Path)
    requires p != [] && |p| <= |s|
    ensures Selects(s[..|p|], p) <==> StepMatches(s[0], p[0]) && Selects(s[1..][..|p| - 1], p[1..])
  {
    var r := s[..|p|];
    assert r[0] == s[0] && forall i :: 1 <= i < |p| ==> r[i] == s[1..][..|p| - 1][i - 1] && p[i] == p[1..][i - 1];
  }

  lemma {:induction false} FollowedFits(t: Json, s: Selector, p: Path)
    requires Follows(t, s) && |p| < |s| && Selects(s[..|p|], p) && At(t, p).Some?
    ensures Fits(At(t, p).value, s[|p|..])
    decreases |p|
  {
    hide Fits, Selects;
    if p == [] {
      assert s[0..] == s;
      FollowsFits(t, s);
    } else {
      SelectsFirst(s, p);
      assert s[1..][|p| - 1..] == s[|p|..];
      FollowedFits(Into(t, p[0]), s[1..], p[1..]);
    }
  }

  /** Where a selector cannot be followed, it meets a value it does not fit. */
  lemma {:induction false} Stuck(t: Json, s: Selector) returns (p: Path)
    requires !Follows(t, s)
    ensures |p| < |s| && Selects(s[..|p|], p) && At(t, p).Some? && !Fits(At(t, p).value, s[|p|..])
    decreases |s|
  {
    assert s[0..] == s && s[..0] == [];
    if s[0].Key? {
      KeysStep(s);
      KeysFollowNull(s[1..]);
    }
    p := [];
    if Fits(t, s) {
      var x: Place;
      if s[0].Key? {
        x := Field(s[0].name);
      } else if t.Obj? {
        var k :| k in t.fields && !Follows(t.fields[k], s[1..]);
        x := Field(k);
      } else {
        var i :| 0 <= i < |t.elems| && !Follows(t.elems[i], s[1..]);
        x := Element(i);
      }
      var q := Stuck(Into(t, x), s[1..]);
      p := [x] + q;
      assert p[1..] == q && s[1..][|q|..] == s[|p|..];
      SelectsFirst(s, p);
    }
  }

  // ----------------------------------------------------- what a signature covers

  /** The two trees have the same thing at a path: nothing, equal scalars, or the same kind of
      container, of the same length if it is an array whose elements count. */
  ghost predicate SameAt(t: Json, u: Json, p: Path, counts: bool) {
    && (At(t, p).Some? <==> At(u, p).Some?)
    && (At(t, p).Some? ==>
          && SameHead(At(t, p).value, At(u, p).value)
          && (At(t, p).value.Arr? && counts ==> |At(t, p).value.elems| == |At(u, p).value.elems|))
  }

  /** The path leads to, or into, an annotation that is not signed. */
  predicate Unsigned(p: Path, domain: string) {
    && |p| >= 3 && p[0] == Field(METADATA) && p[1] == Field(ANNOTATIONS)
    && p[2] !in {Field(IncludesKey(domain)), Field(ExcludesKey(domain))}
  }

  lemma SameFieldAt(t: Json, u: Json, p: Path)
    requires t.Obj? && u.Obj? && p != [] && p[0].Field? && SameField(t.fields, u.fields, p[0].key)
    ensures At(t, p) == At(u, p)
  {
  }

  lemma AlikeAt(t: Json, u: Json, domain: string, p: Path)
    requires TreesAlike(t, u, domain) && !Unsigned(p, domain)
    ensures SameAt(t, u, p, true)
  {
    if p != [] && p[0].Field? {
      if p[0].key != METADATA {
        assert SameField(t.fields, u.fields, p[0].key);
        SameFieldAt(t, u, p);
      } else if METADATA in t.fields {
        MetadataAlikeAt(t.fields[METADATA], u.fields[METADATA], domain, p);
      }
    }
  }

  lemma MetadataAlikeAt(x: Json, y: Json, domain: string, p: Path)
    requires MetadataAlike(x, y, domain) && p != [] && p[0] == Field(METADATA) && !Unsigned(p, domain)
    ensures SameAt(x, y, p[1..], true)
  {
    var q := p[1..];
    if q != [] && q[0].Field? {
      if q[0].key != ANNOTATIONS {
        assert SameField(x.fields, y.fields, q[0].key);
        SameFieldAt(x, y, q);
      } else if ANNOTATIONS in x.fields && |p| > 2 {
        var r := q[1..];
        assert r[0] == p[2];
        if r[0].Field? {
          assert SameField(x.fields[ANNOTATIONS].fields, y.fields[ANNOTATIONS].fields, r[0].key);
          SameFieldAt(x.fields[ANNOTATIONS], y.fields[ANNOTATIONS], r);
        }
      }
    }
  }

  /** Bundles with the same canonical form have the same thing at every path that is neither
      excluded nor an unsigned annotation. */
  lemma CanonicalCoversPaths(t: Json, u: Json, domain: string, excludes: seq<Selector>, p: Path)
    requires IsBundleTree(t) && IsBundleTree(u)
    requires Canonical(t, excludes, domain).Some? && Canonical(t, excludes, domain) == Canonical(u, excludes, domain)
    requires !Deleted(Selected(excludes), p) && !Unsigned(p, domain)
    ensures SameAt(t, u, p, !Deleted(Selected(excludes), p + [Element(0)]))
  {
    hide Canonical, TreesAlike, Selected, Deleted, Prune, Unsigned;
    var ss := Selected(excludes);
    CanonicalCovers(t, u, domain, excludes);
    AlikeAt(Prune(t, ss), Prune(u, ss), domain, p);
    PruneAt(t, ss, p);
    PruneAt(u, ss, p);
  }

  /** The registry or repository of a package, which published bundles exclude. */
  predicate IsPackageSource(q: Path) {
    |q| >= 2 && q[0] == Field("source") && q[1] in {Field("registry"), Field("repository")}
  }

  const PACKAGES: Path := [Field(SPEC), Field("packages")]

  /** Whatever is deleted in the package list is the registry or repository of a package. */
  lemma DefaultSelects(s: Selector, p: Path, n: nat)
    requires s in Selected(DEFAULT_EXCLUDES) && PACKAGES <= p && (|p| > 2 ==> p[2].Element?)
    requires 0 < n <= |p| && Selects(s, p[..n])
    ensures n == 5 && IsPackageSource(p[3..])
  {
    var q := p[..n];
    assert q[0] == p[0] == Field(SPEC) && StepMatches(s[0], q[0]);
    assert n > 1 ==> q[1] == p[1] == Field("packages") && StepMatches(s[1], q[1]);
    assert n == 5;
    assert q[3] == p[3] == p[3..][0] && StepMatches(s[3], q[3]);
    assert q[4] == p[4] == p[3..][1] && StepMatches(s[4], q[4]);
  }

  lemma DefaultDeletes(p: Path)
    requires PACKAGES <= p && (|p| > 2 ==> p[2].Element? && !IsPackageSource(p[3..]))
    ensures !Deleted(Selected(DEFAULT_EXCLUDES), p)
  {
    if s, n :| s in Selected(DEFAULT_EXCLUDES) && 0 < n <= |p| && Selects(s, p[..n]) {
      DefaultSelects(s, p, n);
    }
  }

  /** The package list is signed: bundles with the published excludes and the same canonical form
      have equally many packages, and these have the same thing everywhere outside the
      registry and repository of their source. */
  lemma PackagesAreCovered(t: Json, u: Json, domain: string)
    requires IsBundleTree(t) && IsBundleTree(u) && Canonical(t, DEFAULT_EXCLUDES, domain).Some?
    requires Canonical(t, DEFAULT_EXCLUDES, domain) == Canonical(u, DEFAULT_EXCLUDES, domain)
    ensures SameAt(t, u, PACKAGES, true)
    ensures forall i: nat, q: Path :: !IsPackageSource(q) ==> SameAt(t, u, PACKAGES + [Element(i)] + q, true)
  {
    hide Canonical, Selected, Deleted, SameAt, IsPackageSource;
    NoPackageSource();
    DefaultDeletes(PACKAGES);
    assert (PACKAGES + [Element(0)])[3..] == [];
    DefaultDeletes(PACKAGES + [Element(0)]);
    CanonicalCoversPaths(t, u, domain, DEFAULT_EXCLUDES, PACKAGES);
    forall i: nat, q: Path | !IsPackageSource(q) ensures SameAt(t, u, PACKAGES + [Element(i)] + q, true) {
      var p := PACKAGES + [Element(i)] + q;
      assert p[3..] == q && (p + [Element(0)])[3..] == q + [Element(0)];
      StillNoPackageSource(q);
      DefaultDeletes(p);
      DefaultDeletes(p + [Element(0)]);
      CanonicalCoversPaths(t, u, domain, DEFAULT_EXCLUDES, p);
    }
  }

  lemma NoPackageSource()
    ensures !IsPackageSource([])
  {
  }

  lemma StillNoPackageSource(q: Path)
    requires !IsPackageSource(q)
    ensures !IsPackageSource(q + [Element(0)])
  {
  }
}
