/** The canonical form that bundle signatures cover (pkg/signature/manifest.go) and
    the publishing side that must not disturb it (generatebundlefile/bundle.go). */
module Signature {
  import opened Wrappers
  import opened Json
  import opened Strings

  // ---------------------------------------------------------------- selectors

  /** A step of a selector: a key, or the iteration over all members. */
  datatype Step = Key(name: string) | Iterate

  type Selector = seq<Step>

  /** Whether jq can follow a selector without a type error. A missing key is null,
      a key of null is null, and null cannot be iterated. */
  predicate Follows(t: Json, s: Selector)
    decreases |s|
  {
    if s == [] then true
    else
      match s[0]
      case Key(k) =>
        (t.Null? && Follows(Null, s[1..])) ||
        (t.Obj? && Follows(if k in t.fields then t.fields[k] else Null, s[1..]))
      case Iterate =>
        (t.Obj? && forall k :: k in t.fields ==> Follows(t.fields[k], s[1..])) ||
        (t.Arr? && forall i :: 0 <= i < |t.elems| ==> Follows(t.elems[i], s[1..]))
  }

  /** What the selectors of a set select below a key, and below an array element. */
  function Below(ss: set<Selector>, k: string): set<Selector> {
    set s | s in ss && |s| > 1 && s[0] in {Key(k), Iterate} :: s[1..]
  }

  function Within(ss: set<Selector>): set<Selector> {
    set s | s in ss && |s| > 1 && s[0] == Iterate :: s[1..]
  }

  predicate Cuts(ss: set<Selector>, k: string) {
    [Key(k)] in ss || [Iterate] in ss
  }

  /** A tree without everything the selectors reach: jq's del of all of them at once. */
  function Prune(t: Json, ss: set<Selector>): Json {
    match t
    case Obj(m) => Obj(map k | k in m && !Cuts(ss, k) :: Prune(m[k], Below(ss, k)))
    case Arr(a) =>
      if [Iterate] in ss then Arr([])
      else Arr(seq(|a|, i requires 0 <= i < |a| => Prune(a[i], Within(ss))))
    case _ => t
  }

  lemma {:induction false} PruneNothing(t: Json)
    ensures Prune(t, {}) == t
  {
    match t
    case Obj(m) =>
      forall k | k in m ensures Prune(m[k], Below({}, k)) == m[k] {
        assert Below({}, k) == {};
        PruneNothing(m[k]);
      }
    case Arr(a) =>
      assert Within({}) == {};
      forall i | 0 <= i < |a| ensures Prune(a[i], Within({})) == a[i] {
        PruneNothing(a[i]);
      }
    case _ =>
  }

  /** Deleting in two rounds is deleting all at once, */
  lemma {:induction false} PruneInRounds(t: Json, xs: set<Selector>, ys: set<Selector>)
    ensures Prune(Prune(t, xs), ys) == Prune(t, xs + ys)
  {
    match t
    case Obj(m) =>
      var m1 := Prune(t, xs).fields;
      var m2 := Prune(Prune(t, xs), ys).fields;
      var m3 := Prune(t, xs + ys).fields;
      assert m2.Keys == m3.Keys;
      forall k | k in m2 ensures m2[k] == m3[k] {
        assert Below(xs + ys, k) == Below(xs, k) + Below(ys, k);
        PruneInRounds(m[k], Below(xs, k), Below(ys, k));
      }
      assert m2 == m3;
    case Arr(a) =>
      if [Iterate] !in xs + ys {
        assert Within(xs + ys) == Within(xs) + Within(ys);
        forall i | 0 <= i < |a|
          ensures Prune(Prune(a[i], Within(xs)), Within(ys)) == Prune(a[i], Within(xs + ys))
        {
          PruneInRounds(a[i], Within(xs), Within(ys));
        }
        assert Prune(Prune(t, xs), ys).elems == Prune(t, xs + ys).elems;
      }
    case _ =>
  }

  /** so the order of deletions does not matter, and deleting again changes nothing. */
  lemma PruneCommutes(t: Json, xs: set<Selector>, ys: set<Selector>)
    ensures Prune(Prune(t, xs), ys) == Prune(Prune(t, ys), xs)
    ensures Prune(Prune(t, xs), xs) == Prune(t, xs)
  {
    PruneInRounds(t, xs, ys);
    PruneInRounds(t, ys, xs);
    PruneInRounds(t, xs, xs);
    assert xs + ys == ys + xs && xs + xs == xs;
  }

  // ----------------------------------------------------------- canonical form

  const STATUS := "status"
  const METADATA := "metadata"
  const SPEC := "spec"
  const ANNOTATIONS := "annotations"
  const MIN_VERSION := "minControllerVersion"

  const GENERATED := {"creationTimestamp", "generation", "managedFields", "uid", "resourceVersion"}

  const ALWAYS_EXCLUDED: set<Selector> :=
    {[Key(STATUS)], [Key(SPEC), Key(MIN_VERSION)],
     [Key(METADATA), Key("creationTimestamp")], [Key(METADATA), Key("generation")],
     [Key(METADATA), Key("managedFields")], [Key(METADATA), Key("uid")], [Key(METADATA), Key("resourceVersion")]}

  function SignatureKey(domain: string): string { domain + "/signature" }
  function ExcludesKey(domain: string): string { domain + "/excludes" }
  function IncludesKey(domain: string): string { domain + "/includes" }

  /** Metadata with only the includes and excludes annotations of the domain. */
  function KeptMetadata(meta: Json, domain: string): Json
    requires meta.Obj?
  {
    if ANNOTATIONS !in meta.fields || !meta.fields[ANNOTATIONS].Obj? then meta
    else
      var kept := map k | k in meta.fields[ANNOTATIONS].fields && k in {IncludesKey(domain), ExcludesKey(domain)}
        :: meta.fields[ANNOTATIONS].fields[k];
      Obj(meta.fields[ANNOTATIONS := Obj(kept)])
  }

  /** Drops all other annotations of a manifest. None is a jq type error. */
  function KeepAnnotations(t: Json, domain: string): Option<Json> {
    if t.Null? then Some(t)
    else if !t.Obj? then None
    else if METADATA !in t.fields || t.fields[METADATA].Null? then Some(t)
    else if !t.fields[METADATA].Obj? then None
    else Some(Obj(t.fields[METADATA := KeptMetadata(t.fields[METADATA], domain)]))
  }

  /** Everything a manifest with these excludes is stripped of. */
  function Selected(excludes: seq<Selector>): set<Selector> {
    (set s | s in excludes) + ALWAYS_EXCLUDED
  }

  function Canonical(t: Json, excludes: seq<Selector>, domain: string): Option<Json> {
    var ss := Selected(excludes);
    if forall s :: s in ss ==> Follows(t, s) then KeepAnnotations(Prune(t, ss), domain) else None
  }

  /** An annotation of a manifest. */
  function Annotation(t: Json, key: string): Option<string> {
    if t.Obj? && METADATA in t.fields && t.fields[METADATA].Obj?
       && ANNOTATIONS in t.fields[METADATA].fields && t.fields[METADATA].fields[ANNOTATIONS].Obj?
       && key in t.fields[METADATA].fields[ANNOTATIONS].fields
       && t.fields[METADATA].fields[ANNOTATIONS].fields[key].Str?
    then Some(t.fields[METADATA].fields[ANNOTATIONS].fields[key].text)
    else None
  }

  /** Base64 and the selector syntax are opaque: what an annotation decodes to, line by line. */
  datatype Codec = Codec(decode: string -> Option<string>, parse: string -> Option<Selector>)

  function NonEmpty(lines: seq<string>): (r: seq<string>) {
    if lines == [] then []
    else NonEmpty(lines[..|lines| - 1]) + if lines[|lines| - 1] != "" then [lines[|lines| - 1]] else []
  }

  /** The selectors accepted: those that start by indexing with a key. */
  predicate IsIndex(s: Selector) { s != [] && s[0].Key? }

  function ParseAll(lines: seq<string>, parse: string -> Option<Selector>): Option<seq<Selector>> {
    if lines == [] then Some([])
    else
      var rest := ParseAll(lines[..|lines| - 1], parse);
      var last := parse(lines[|lines| - 1]);
      if rest.None? || last.None? || !IsIndex(last.value) then None else Some(rest.value + [last.value])
  }

  function DecodeSelectors(text: string, c: Codec): Option<seq<Selector>> {
    match c.decode(text)
    case None => None
    case Some(decoded) => ParseAll(NonEmpty(Split(decoded, '\n')), c.parse)
  }

  /** The selectors a manifest asks to exclude. */
  function Excludes(t: Json, domain: string, c: Codec): Option<seq<Selector>> {
    match Annotation(t, ExcludesKey(domain))
    case None => Some([])
    case Some(text) => DecodeSelectors(text, c)
  }

  /** The tree whose hash is signed. */
  function SignedTree(t: Json, domain: string, c: Codec): Option<Json> {
    match Excludes(t, domain, c)
    case None => None
    case Some(excludes) => Canonical(t, excludes, domain)
  }

  // -------------------------------------------------------- verify after sign

  /** Two manifests that differ at most in status, generated metadata, the minimum
      controller version, and annotations other than the domain's includes and excludes. */
  ghost predicate Agree(t: Json, u: Json, domain: string) {
    && t.Obj? && u.Obj?
    && (forall k :: k !in {STATUS, METADATA, SPEC} ==> SameField(t.fields, u.fields, k))
    && (SPEC in t.fields <==> SPEC in u.fields)
    && (SPEC in t.fields ==> AgreeExcept(t.fields[SPEC], u.fields[SPEC], {MIN_VERSION}))
    && METADATA in t.fields && METADATA in u.fields
    && AgreeExcept(t.fields[METADATA], u.fields[METADATA], GENERATED + {ANNOTATIONS})
    && t.fields[METADATA].Obj? && u.fields[METADATA].Obj?
    && ANNOTATIONS in t.fields[METADATA].fields && ANNOTATIONS in u.fields[METADATA].fields
    && SignedAlike(t.fields[METADATA].fields[ANNOTATIONS], u.fields[METADATA].fields[ANNOTATIONS], domain)
  }

  /** Annotations with the same includes and excludes. */
  ghost predicate SignedAlike(a: Json, b: Json, domain: string) {
    && a.Obj? && b.Obj?
    && forall k :: k in {IncludesKey(domain), ExcludesKey(domain)} ==> SameField(a.fields, b.fields, k)
  }

  ghost predicate SameField(m: Values, n: Values, k: string) {
    (k in m <==> k in n) && (k in m ==> m[k] == n[k])
  }

  ghost predicate AgreeExcept(t: Json, u: Json, volatile: set<string>) {
    if t.Obj? && u.Obj? then forall k :: k !in volatile ==> SameField(t.fields, u.fields, k) else t == u
  }

  /** A selector that reaches below a value that may change: below the status, the minimum
      controller version, a generated field, or an annotation that is not signed. */
  predicate ReachesThrough(s: Selector, domain: string) {
    || (|s| >= 2 && s[0] == Key(STATUS))
    || (|s| >= 3 && s[0] == Key(SPEC) && s[1] in {Iterate, Key(MIN_VERSION)})
    || (|s| >= 3 && s[0] == Key(METADATA) && (s[1] == Iterate || s[1].name in GENERATED))
    || (|s| >= 4 && s[0] == Key(METADATA) && s[1] == Key(ANNOTATIONS) &&
        s[2] !in {Key(IncludesKey(domain)), Key(ExcludesKey(domain))})
  }

  predicate IsStable(s: Selector, domain: string) { IsIndex(s) && !ReachesThrough(s, domain) }

  /** The excludes every published bundle carries. */
  const DEFAULT_EXCLUDES: seq<Selector> :=
    [[Key(SPEC), Key("packages"), Iterate, Key("source"), Key("registry")],
     [Key(SPEC), Key("packages"), Iterate, Key("source"), Key("repository")]]

  lemma DefaultExcludesAreStable(domain: string)
    ensures forall s :: s in DEFAULT_EXCLUDES ==> IsStable(s, domain)
  {
  }

  lemma TwoKeysFollow(t: Json, a: string, b: string)
    requires t.Obj?
    ensures Follows(t, [Key(a), Key(b)]) <==> a !in t.fields || t.fields[a].Null? || t.fields[a].Obj?
  {
    var s := [Key(a), Key(b)];
    assert s[1..] == [Key(b)] && s[1..][1..] == [];
    var v := if a in t.fields then t.fields[a] else Null;
    assert Follows(v, s[1..]) <==> v.Null? || v.Obj?;
  }

  lemma FollowsField(t: Json, u: Json, s: Selector)
    requires t.Obj? && u.Obj?
    requires |s| <= 1 || (s[0].Key? && SameField(t.fields, u.fields, s[0].name))
    ensures Follows(t, s) == Follows(u, s)
  {
    if |s| == 1 { assert s[1..] == [] && forall v: Json :: Follows(v, s[1..]); }
  }

  lemma AlwaysExcludedIsStable(s: Selector, domain: string)
    requires s in ALWAYS_EXCLUDED
    ensures IsStable(s, domain)
  {
  }

  /** A stable selector can be followed in both of two manifests that agree, or in neither. */
  lemma FollowsAlike(t: Json, u: Json, domain: string, s: Selector)
    requires Agree(t, u, domain) && IsStable(s, domain)
    ensures Follows(t, s) == Follows(u, s)
  {
    if |s| == 1 {
      FollowsField(t, u, s);
    } else {
      var k := s[0].name;
      FollowsName(t, s);
      FollowsName(u, s);
      hide Follows;
      if k == SPEC {
        if SPEC in t.fields && t.fields[SPEC].Obj? && u.fields[SPEC].Obj? {
          FollowsSpec(t.fields[SPEC], u.fields[SPEC], s);
        }
      } else if k == METADATA {
        FollowsMetadata(t.fields[METADATA], u.fields[METADATA], domain, s);
      } else {
        assert k != STATUS;
        assert SameField(t.fields, u.fields, k);
      }
    }
  }

  lemma FollowsName(t: Json, s: Selector)
    requires t.Obj? && s != [] && s[0].Key?
    ensures var k := s[0].name;
            Follows(t, s) == Follows(if k in t.fields then t.fields[k] else Null, s[1..])
  {
  }

  lemma FollowsSpec(x: Json, y: Json, s: Selector)
    requires x.Obj? && y.Obj? && AgreeExcept(x, y, {MIN_VERSION}) && |s| >= 2
    requires |s| == 2 || (s[1].Key? && s[1].name != MIN_VERSION)
    ensures Follows(x, s[1..]) == Follows(y, s[1..])
  {
    if |s| > 2 { assert SameField(x.fields, y.fields, s[1].name); }
    FollowsField(x, y, s[1..]);
  }

  lemma FollowsMetadata(x: Json, y: Json, domain: string, s: Selector)
    requires x.Obj? && y.Obj? && AgreeExcept(x, y, GENERATED + {ANNOTATIONS})
    requires ANNOTATIONS in x.fields && ANNOTATIONS in y.fields
    requires SignedAlike(x.fields[ANNOTATIONS], y.fields[ANNOTATIONS], domain)
    requires IsStable(s, domain) && |s| >= 2 && s[0] == Key(METADATA)
    ensures Follows(x, s[1..]) == Follows(y, s[1..])
  {
    var rest := s[1..];
    if |s| > 2 && s[1] == Key(ANNOTATIONS) {
      FollowsField(x.fields[ANNOTATIONS], y.fields[ANNOTATIONS], rest[1..]);
    } else {
      FollowsField(x, y, rest);
    }
  }

  // Pruning, field by field.

  lemma PrunedField(t: Json, ss: set<Selector>, k: string)
    requires t.Obj?
    ensures Prune(t, ss).Obj?
    ensures k in Prune(t, ss).fields <==> k in t.fields && !Cuts(ss, k)
    ensures k in Prune(t, ss).fields ==> Prune(t, ss).fields[k] == Prune(t.fields[k], Below(ss, k))
  {
  }

  lemma SameFields(m: Values, n: Values)
    requires forall k :: SameField(m, n, k)
    ensures m == n
  {
    assert m.Keys == n.Keys by {
      forall k ensures k in m.Keys <==> k in n.Keys { assert SameField(m, n, k); }
    }
    forall k | k in m ensures m[k] == n[k] { assert SameField(m, n, k); }
  }

  lemma PruneSpecAlike(t: Json, u: Json, ss: set<Selector>)
    requires AgreeExcept(t, u, {MIN_VERSION}) && [Key(MIN_VERSION)] in ss
    ensures Prune(t, ss) == Prune(u, ss)
  {
    if t.Obj? && u.Obj? {
      var m, n := Prune(t, ss).fields, Prune(u, ss).fields;
      forall k ensures SameField(m, n, k) {
        if k != MIN_VERSION { assert SameField(t.fields, u.fields, k); }
      }
      SameFields(m, n);
    }
  }

  const GENERATED_KEYS: set<Selector> := set g | g in GENERATED :: [Key(g)]

  lemma GeneratedCuts(k: string)
    ensures Cuts(GENERATED_KEYS, k) <==> k in GENERATED
    ensures Below(GENERATED_KEYS, k) == {}
  {
    if k in GENERATED { assert [Key(k)] in GENERATED_KEYS; }
  }

  lemma PrunedSameField(t: Json, u: Json, ss: set<Selector>, k: string)
    requires t.Obj? && u.Obj? && (Cuts(ss, k) || SameField(t.fields, u.fields, k))
    ensures Prune(t, ss).Obj? && Prune(u, ss).Obj?
    ensures SameField(Prune(t, ss).fields, Prune(u, ss).fields, k)
  {
    hide Prune;
    PrunedField(t, ss, k);
    PrunedField(u, ss, k);
  }

  /** Metadata that differs at most in annotations that are not signed. */
  ghost predicate MetadataAlike(x: Json, y: Json, domain: string) {
    && x.Obj? && y.Obj? && AgreeExcept(x, y, {ANNOTATIONS})
    && (ANNOTATIONS in x.fields <==> ANNOTATIONS in y.fields)
    && (ANNOTATIONS in x.fields ==> SignedAlike(x.fields[ANNOTATIONS], y.fields[ANNOTATIONS], domain))
  }

  lemma PruneMetadata(x: Json, y: Json, ss: set<Selector>, domain: string)
    requires x.Obj? && y.Obj? && AgreeExcept(x, y, GENERATED + {ANNOTATIONS})
    requires ANNOTATIONS in x.fields && ANNOTATIONS in y.fields
    requires SignedAlike(x.fields[ANNOTATIONS], y.fields[ANNOTATIONS], domain) && GENERATED_KEYS <= ss
    ensures MetadataAlike(Prune(x, ss), Prune(y, ss), domain)
  {
    hide Prune, Below;
    PrunedField(x, ss, ANNOTATIONS);
    PrunedField(y, ss, ANNOTATIONS);
    forall k | k != ANNOTATIONS ensures SameField(Prune(x, ss).fields, Prune(y, ss).fields, k) {
      if k in GENERATED {
        assert [Key(k)] in GENERATED_KEYS;
      } else {
        assert SameField(x.fields, y.fields, k);
      }
      PrunedSameField(x, y, ss, k);
    }
    if !Cuts(ss, ANNOTATIONS) {
      PruneAnnotations(x.fields[ANNOTATIONS], y.fields[ANNOTATIONS], Below(ss, ANNOTATIONS), domain);
    }
  }

  lemma PruneAnnotations(a: Json, b: Json, ss: set<Selector>, domain: string)
    requires SignedAlike(a, b, domain)
    ensures SignedAlike(Prune(a, ss), Prune(b, ss), domain)
  {
    hide Prune;
    PrunedField(a, ss, "");
    PrunedField(b, ss, "");
    forall k | k in {IncludesKey(domain), ExcludesKey(domain)}
      ensures SameField(Prune(a, ss).fields, Prune(b, ss).fields, k)
    {
      PrunedSameField(a, b, ss, k);
    }
  }

  lemma AlwaysBelow(ss: set<Selector>)
    requires ALWAYS_EXCLUDED <= ss
    ensures Cuts(ss, STATUS) && [Key(MIN_VERSION)] in Below(ss, SPEC) && GENERATED_KEYS <= Below(ss, METADATA)
  {
    var min := [Key(SPEC), Key(MIN_VERSION)];
    assert min in ss && min[1..] == [Key(MIN_VERSION)];
    forall g | g in GENERATED ensures [Key(g)] in Below(ss, METADATA) {
      MetadataSelector(g);
    }
  }

  lemma MetadataSelector(g: string)
    requires g in GENERATED
    ensures [Key(METADATA), Key(g)] in ALWAYS_EXCLUDED
    ensures [Key(METADATA), Key(g)][1..] == [Key(g)]
  {
  }

  /** Manifests that differ at most in annotations that are not signed. */
  ghost predicate TreesAlike(p: Json, q: Json, domain: string) {
    && p.Obj? && q.Obj? && AgreeExcept(p, q, {METADATA})
    && (METADATA in p.fields <==> METADATA in q.fields)
    && (METADATA in p.fields ==> MetadataAlike(p.fields[METADATA], q.fields[METADATA], domain))
  }

  /** Whatever else is deleted, deleting what is always excluded leaves such manifests. */
  lemma PruneAlike(t: Json, u: Json, domain: string, ss: set<Selector>)
    requires Agree(t, u, domain) && ALWAYS_EXCLUDED <= ss
    ensures TreesAlike(Prune(t, ss), Prune(u, ss), domain)
  {
    hide Prune, Below, MetadataAlike;
    AlwaysBelow(ss);
    PrunedField(t, ss, METADATA);
    PrunedField(u, ss, METADATA);
    PruneMetadata(t.fields[METADATA], u.fields[METADATA], Below(ss, METADATA), domain);
    forall k | k != METADATA ensures SameField(Prune(t, ss).fields, Prune(u, ss).fields, k) {
      if k != SPEC {
        PrunedSameField(t, u, ss, k);
      } else {
        PrunedField(t, ss, SPEC);
        PrunedField(u, ss, SPEC);
        if SPEC in t.fields { PruneSpecAlike(t.fields[SPEC], u.fields[SPEC], Below(ss, SPEC)); }
      }
    }
  }

  /** Dropping the other annotations removes the last difference. */
  lemma KeptAlike(p: Json, q: Json, domain: string)
    requires TreesAlike(p, q, domain)
    ensures KeepAnnotations(p, domain) == KeepAnnotations(q, domain)
  {
    hide KeptMetadata, MetadataAlike;
    if METADATA in p.fields {
      MetadataIsObject(p.fields[METADATA], q.fields[METADATA], domain);
      KeptMetadataAlike(p.fields[METADATA], q.fields[METADATA], domain);
      var x, y := KeepAnnotations(p, domain).value.fields, KeepAnnotations(q, domain).value.fields;
      forall k ensures SameField(x, y, k) {
        assert k != METADATA ==> SameField(p.fields, q.fields, k);
      }
      SameFields(x, y);
    } else {
      forall k ensures SameField(p.fields, q.fields, k) { }
      SameFields(p.fields, q.fields);
    }
  }

  lemma MetadataIsObject(x: Json, y: Json, domain: string)
    requires MetadataAlike(x, y, domain)
    ensures x.Obj? && y.Obj?
  {
  }

  lemma KeptMetadataAlike(x: Json, y: Json, domain: string)
    requires MetadataAlike(x, y, domain)
    ensures x.Obj? && y.Obj? && KeptMetadata(x, domain) == KeptMetadata(y, domain)
  {
    var m, n := KeptMetadata(x, domain).fields, KeptMetadata(y, domain).fields;
    if ANNOTATIONS in x.fields {
      forall k ensures SameField(m[ANNOTATIONS].fields, n[ANNOTATIONS].fields, k) {
        if k in {IncludesKey(domain), ExcludesKey(domain)} {
          assert SameField(x.fields[ANNOTATIONS].fields, y.fields[ANNOTATIONS].fields, k);
        }
      }
      SameFields(m[ANNOTATIONS].fields, n[ANNOTATIONS].fields);
    }
    forall k ensures SameField(m, n, k) {
      assert k != ANNOTATIONS ==> SameField(x.fields, y.fields, k);
    }
    SameFields(m, n);
  }

  /** Manifests that agree have the same canonical form as soon as the excludes can be followed
      in both or in neither. */
  lemma CanonicalIfFollowed(t: Json, u: Json, domain: string, excludes: seq<Selector>)
    requires Agree(t, u, domain) && forall s :: s in excludes ==> Follows(t, s) == Follows(u, s)
    ensures Canonical(t, excludes, domain) == Canonical(u, excludes, domain)
  {
    hide Prune, Follows, KeepAnnotations, IsStable;
    var ss := Selected(excludes);
    forall s | s in ss ensures Follows(t, s) == Follows(u, s) {
      if s in ALWAYS_EXCLUDED {
        AlwaysExcludedIsStable(s, domain);
        FollowsAlike(t, u, domain, s);
      }
    }
    PruneAlike(t, u, domain, ss);
    KeptAlike(Prune(t, ss), Prune(u, ss), domain);
  }

  /** That is so for every stable selector. */
  lemma CanonicalAlike(t: Json, u: Json, domain: string, excludes: seq<Selector>)
    requires Agree(t, u, domain) && forall s :: s in excludes ==> IsStable(s, domain)
    ensures Canonical(t, excludes, domain) == Canonical(u, excludes, domain)
  {
    hide Follows, Canonical, IsStable, Agree;
    forall s | s in excludes ensures Follows(t, s) == Follows(u, s) {
      FollowsAlike(t, u, domain, s);
    }
    CanonicalIfFollowed(t, u, domain, excludes);
  }

  lemma ExcludesAlike(t: Json, u: Json, domain: string, c: Codec)
    requires Agree(t, u, domain)
    ensures Excludes(t, domain, c) == Excludes(u, domain, c)
  {
    assert SameField(t.fields[METADATA].fields[ANNOTATIONS].fields, u.fields[METADATA].fields[ANNOTATIONS].fields,
                     ExcludesKey(domain));
  }

  /** What is verified equals what was signed: manifests that agree have the same signed
      tree, whatever their status, generated metadata, minimum version and other annotations. */
  lemma SignedTreeIsStable(t: Json, u: Json, domain: string, c: Codec)
    requires Agree(t, u, domain)
    requires Excludes(t, domain, c).Some? ==> forall s :: s in Excludes(t, domain, c).value ==> IsStable(s, domain)
    ensures SignedTree(t, domain, c) == SignedTree(u, domain, c)
  {
    ExcludesAlike(t, u, domain, c);
    if Excludes(t, domain, c).Some? {
      CanonicalAlike(t, u, domain, Excludes(t, domain, c).value);
    }
  }

  // -------------------------------------------------- what a signature covers

  lemma KeptMetadataCovers(x: Json, y: Json, domain: string)
    requires x.Obj? && y.Obj? && (ANNOTATIONS in x.fields <==> ANNOTATIONS in y.fields)
    requires ANNOTATIONS in x.fields ==> x.fields[ANNOTATIONS].Obj? && y.fields[ANNOTATIONS].Obj?
    requires KeptMetadata(x, domain) == KeptMetadata(y, domain)
    ensures MetadataAlike(x, y, domain)
  {
    var m, n := KeptMetadata(x, domain).fields, KeptMetadata(y, domain).fields;
    forall k | k != ANNOTATIONS ensures SameField(x.fields, y.fields, k) {
      assert SameField(m, n, k);
    }
    if ANNOTATIONS in x.fields {
      forall k | k in {IncludesKey(domain), ExcludesKey(domain)}
        ensures SameField(x.fields[ANNOTATIONS].fields, y.fields[ANNOTATIONS].fields, k)
      {
        assert SameField(m[ANNOTATIONS].fields, n[ANNOTATIONS].fields, k);
      }
    }
  }

  lemma KeptCovers(p: Json, q: Json, domain: string)
    requires p.Obj? && q.Obj? && KeepAnnotations(p, domain) == KeepAnnotations(q, domain)
    requires METADATA in p.fields <==> METADATA in q.fields
    requires METADATA in p.fields ==> p.fields[METADATA].Obj? && q.fields[METADATA].Obj?
    ensures METADATA in p.fields ==>
              KeptMetadata(p.fields[METADATA], domain) == KeptMetadata(q.fields[METADATA], domain)
    ensures AgreeExcept(p, q, {METADATA})
  {
    hide KeptMetadata;
    if METADATA in p.fields {
      var x, y := KeepAnnotations(p, domain).value.fields, KeepAnnotations(q, domain).value.fields;
      assert x[METADATA] == y[METADATA];
      forall k | k != METADATA ensures SameField(p.fields, q.fields, k) {
        assert SameField(x, y, k);
      }
    }
  }

  /** The canonical form covers everything else: two bundles have the same one exactly when, after
      deletion of what is excluded, they differ at most in annotations that are not signed. */
  lemma CanonicalCovers(t: Json, u: Json, domain: string, excludes: seq<Selector>)
    requires IsBundleTree(t) && IsBundleTree(u)
    requires Canonical(t, excludes, domain).Some? && Canonical(u, excludes, domain).Some?
    ensures Canonical(t, excludes, domain) == Canonical(u, excludes, domain) <==>
            TreesAlike(Prune(t, Selected(excludes)), Prune(u, Selected(excludes)), domain)
  {
    hide Prune, Follows, KeepAnnotations, Cuts, Below, MetadataAlike;
    var ss := Selected(excludes);
    var p, q := Prune(t, ss), Prune(u, ss);
    if TreesAlike(p, q, domain) { KeptAlike(p, q, domain); }
    if KeepAnnotations(p, domain) == KeepAnnotations(q, domain) {
      PrunedField(t, ss, METADATA);
      PrunedField(u, ss, METADATA);
      var x, y, below := t.fields[METADATA], u.fields[METADATA], Below(ss, METADATA);
      PrunedField(x, below, ANNOTATIONS);
      PrunedField(y, below, ANNOTATIONS);
      KeptCovers(p, q, domain);
      if METADATA in p.fields {
        PrunedField(x.fields[ANNOTATIONS], Below(below, ANNOTATIONS), "");
        PrunedField(y.fields[ANNOTATIONS], Below(below, ANNOTATIONS), "");
        KeptMetadataCovers(p.fields[METADATA], q.fields[METADATA], domain);
      }
    }
  }

  /** An annotation found in the canonical form is that of the manifest. */
  lemma SignedAnnotation(t: Json, domain: string, excludes: seq<Selector>, key: string)
    requires IsBundleTree(t) && Canonical(t, excludes, domain).Some?
    requires Annotation(Canonical(t, excludes, domain).value, key).Some?
    ensures Annotation(t, key) == Annotation(Canonical(t, excludes, domain).value, key)
  {
    hide Prune, Follows, Cuts, Below;
    var ss := Selected(excludes);
    var below := Below(ss, METADATA);
    PrunedField(t, ss, METADATA);
    PrunedField(t.fields[METADATA], below, ANNOTATIONS);
    PrunedField(t.fields[METADATA].fields[ANNOTATIONS], Below(below, ANNOTATIONS), key);
    PruneKeepsKind(t.fields[METADATA].fields[ANNOTATIONS].fields[key], Below(Below(below, ANNOTATIONS), key));
  }

  lemma PruneKeepsKind(t: Json, ss: set<Selector>)
    ensures Prune(t, ss).Str? ==> Prune(t, ss) == t
  {
  }

  /** A manifest with the same signed tree as a bundle whose excludes annotation is itself signed has the
      same excludes, and nothing else changed but what they, and what is always excluded, allow. */
  lemma SignatureCovers(t: Json, u: Json, domain: string, c: Codec)
    requires IsBundleTree(t) && IsBundleTree(u)
    requires SignedTree(t, domain, c).Some? && SignedTree(t, domain, c) == SignedTree(u, domain, c)
    requires Annotation(SignedTree(t, domain, c).value, ExcludesKey(domain)).Some?
    ensures Annotation(u, ExcludesKey(domain)) == Annotation(t, ExcludesKey(domain))
    ensures var ss := Selected(Excludes(t, domain, c).value);
            TreesAlike(Prune(t, ss), Prune(u, ss), domain)
  {
    hide Canonical, Annotation, TreesAlike, Selected;
    SignedAnnotation(t, domain, Excludes(t, domain, c).value, ExcludesKey(domain));
    SignedAnnotation(u, domain, Excludes(u, domain, c).value, ExcludesKey(domain));
    CanonicalCovers(t, u, domain, Excludes(t, domain, c).value);
  }

  // ------------------------------------------------- which excludes are stable

  predicate Scalar(v: Json) { !v.Obj? && !v.Arr? }

  const MANAGED_FIELDS := "managedFields"

  /** The values that may change have the types a manifest gives them: the status is an object,
      managed fields are an array, annotations are texts, and the rest is scalar. */
  ghost predicate Typed(t: Json) {
    && IsBundleTree(t)
    && (STATUS in t.fields ==> t.fields[STATUS].Obj?)
    && (SPEC in t.fields ==>
          && t.fields[SPEC].Obj?
          && (MIN_VERSION in t.fields[SPEC].fields ==> Scalar(t.fields[SPEC].fields[MIN_VERSION])))
    && TypedMetadata(t.fields[METADATA].fields)
  }

  ghost predicate TypedMetadata(meta: Values)
    requires ANNOTATIONS in meta && meta[ANNOTATIONS].Obj?
  {
    && (forall k :: k in meta[ANNOTATIONS].fields ==> meta[ANNOTATIONS].fields[k].Str?)
    && forall g :: g in GENERATED && g in meta ==> if g == MANAGED_FIELDS then meta[g].Arr? else Scalar(meta[g])
  }

  predicate Keys(s: Selector) { forall i :: 0 <= i < |s| ==> s[i].Key? }

  /** A selector that can be followed or not, depending on a value that may change. Below a
      scalar that is absent or present this takes keys only, as null has keys but no members. */
  predicate Varies(s: Selector, domain: string) {
    || (|s| >= 2 && s[0] == Key(STATUS) && (s[1] == Iterate || |s| >= 3))
    || (|s| >= 3 && s[0] == Key(SPEC) && (s[1] == Iterate || (s[1] == Key(MIN_VERSION) && Keys(s[2..]))))
    || (|s| >= 3 && s[0] == Key(METADATA) && s[1] in {Iterate, Key(MANAGED_FIELDS)} &&
        (s[2] == Iterate || Keys(s[2..])))
    || (|s| >= 3 && s[0] == Key(METADATA) && s[1].Key? && s[1].name in GENERATED && Keys(s[2..]))
    || (|s| >= 4 && s[0] == Key(METADATA) && s[1] == Key(ANNOTATIONS) &&
        (s[2] == Iterate || (s[2].name !in {IncludesKey(domain), ExcludesKey(domain)} && Keys(s[3..]))))
  }

  lemma {:induction false} ScalarStops(v: Json, s: Selector)
    requires Scalar(v) && !Keys(s)
    ensures !Follows(v, s)
    decreases |s|
  {
    if s[0].Key? {
      assert !Keys(s[1..]) by {
        var i :| 0 <= i < |s| && !s[i].Key?;
        assert s[1..][i - 1] == s[i];
      }
      ScalarStops(Null, s[1..]);
    }
  }

  lemma {:induction false} NullHasKeys(s: Selector)
    requires Keys(s)
    ensures Follows(Null, s)
    decreases |s|
  {
    if s != [] { NullHasKeys(s[1..]); }
  }

  /** In typed manifests a selector that does not vary is followed in both or in neither. */
  lemma TypedFollowsAlike(t: Json, u: Json, domain: string, s: Selector)
    requires Agree(t, u, domain) && Typed(t) && Typed(u) && IsIndex(s) && !Varies(s, domain)
    ensures Follows(t, s) == Follows(u, s)
  {
    if !ReachesThrough(s, domain) {
      FollowsAlike(t, u, domain, s);
    } else if s[0] == Key(STATUS) {
      TwoKeysFollow(t, STATUS, s[1].name);
      TwoKeysFollow(u, STATUS, s[1].name);
      assert s == [Key(STATUS), Key(s[1].name)];
    } else {
      NeverFollows(t, domain, s);
      NeverFollows(u, domain, s);
    }
  }

  /** Reaching through a scalar to members, it is not followed at all. */
  lemma NeverFollows(t: Json, domain: string, s: Selector)
    requires Typed(t) && IsIndex(s) && ReachesThrough(s, domain) && !Varies(s, domain) && s[0] != Key(STATUS)
    ensures !Follows(t, s)
  {
    var rest := s[1..];
    assert rest[1..] == s[2..];
    if s[0] == Key(SPEC) {
      var spec := if SPEC in t.fields then t.fields[SPEC] else Null;
      ScalarStops(Null, s[2..]);
      if SPEC in t.fields && MIN_VERSION in spec.fields { ScalarStops(spec.fields[MIN_VERSION], s[2..]); }
      assert !Follows(spec, rest);
    } else {
      MetadataNeverFollows(t.fields[METADATA], domain, s);
    }
  }

  lemma MetadataNeverFollows(meta: Json, domain: string, s: Selector)
    requires meta.Obj? && ANNOTATIONS in meta.fields && meta.fields[ANNOTATIONS].Obj? && TypedMetadata(meta.fields)
    requires s != [] && s[0] == Key(METADATA) && ReachesThrough(s, domain) && !Varies(s, domain)
    ensures !Follows(meta, s[1..])
  {
    var rest := s[1..];
    assert rest[1..] == s[2..];
    var annotations := meta.fields[ANNOTATIONS];
    if s[1] == Iterate || s[1] == Key(ANNOTATIONS) {
      var k := s[2].name;
      assert s[2..][1..] == s[3..];
      assert !Keys(s[3..]) by {
        if s[1] == Iterate {
          var i :| 0 <= i < |s[2..]| && !s[2..][i].Key?;
          assert s[3..][i - 1] == s[2..][i];
        }
      }
      ScalarStops(if k in annotations.fields then annotations.fields[k] else Null, s[3..]);
      assert !Follows(annotations, s[2..]);
    } else {
      var g := s[1].name;
      ScalarStops(Null, s[2..]);
      if g in meta.fields && g != MANAGED_FIELDS { ScalarStops(meta.fields[g], s[2..]); }
    }
  }

  /** A tree in which a selector can be followed. */
  function Open(s: Selector): (t: Json)
    ensures t.Obj?
    decreases |s|
  {
    if s == [] || s[0] == Iterate then Obj(map[]) else Obj(map[s[0].name := Open(s[1..])])
  }

  lemma {:induction false} OpenFollows(s: Selector)
    ensures Follows(Open(s), s)
    decreases |s|
  {
    if s != [] && s[0].Key? { OpenFollows(s[1..]); }
  }

  /** The smallest bundle tree with these fields, metadata fields and annotations. */
  function Tree(fields: Values, meta: Values, annotations: Values): Json {
    Obj(fields[METADATA := Obj(meta[ANNOTATIONS := Obj(annotations)])])
  }

  /** Two manifests that agree, of which one lets the selector be followed and the other does not. */
  ghost predicate Separates(t: Json, u: Json, s: Selector, domain: string) {
    Agree(t, u, domain) && Typed(t) && Typed(u) && Follows(t, s) && !Follows(u, s)
  }

  /** Iterating over an object that holds a text stops, over an empty one it does not. */
  lemma FollowsIterate(t: Json, s: Selector)
    requires t.Obj? && |s| >= 2 && s[0] == Iterate
    ensures t.fields == map[] ==> Follows(t, s)
    ensures (exists k :: k in t.fields && t.fields[k].Str?) ==> !Follows(t, s)
  {
    if k :| k in t.fields && t.fields[k].Str? { TextStops(t.fields[k], s[1..]); }
  }

  lemma TextStops(v: Json, s: Selector)
    requires s != [] && v.Str?
    ensures !Follows(v, s)
  {
  }

  lemma StatusSeparates(s: Selector, domain: string) returns (t: Json, u: Json)
    requires Varies(s, domain) && s[0] == Key(STATUS)
    ensures Separates(t, u, s, domain)
  {
    var absent, rest := Tree(map[], map[], map[]), s[1..];
    if Keys(rest) {
      NullHasKeys(rest);
      var status := Obj(map[s[1].name := Str("")]);
      t, u := absent, Tree(map[STATUS := status], map[], map[]);
      hide Follows;
      FollowsName(status, rest);
      TextStops(Str(""), rest[1..]);
      FollowsName(t, s);
      FollowsName(u, s);
    } else {
      OpenFollows(rest);
      ScalarStops(Null, rest);
      t, u := Tree(map[STATUS := Open(rest)], map[], map[]), absent;
      hide Follows;
      FollowsName(t, s);
      FollowsName(u, s);
    }
  }

  lemma SpecSeparates(s: Selector, domain: string) returns (t: Json, u: Json)
    requires Varies(s, domain) && s[0] == Key(SPEC)
    ensures Separates(t, u, s, domain)
  {
    hide Follows;
    var none, some := Obj(map[]), Obj(map[MIN_VERSION := Str("")]);
    t, u := Tree(map[SPEC := none], map[], map[]), Tree(map[SPEC := some], map[], map[]);
    FollowsName(t, s);
    FollowsName(u, s);
    ObjectSeparates(none, some, MIN_VERSION, s[1..]);
  }

  /** An empty object, and one with a single text, under a selector that reaches through the text. */
  lemma ObjectSeparates(none: Json, some: Json, k: string, s: Selector)
    requires none == Obj(map[]) && some == Obj(map[k := Str("")])
    requires |s| >= 2 && (s[0] == Iterate || (s[0] == Key(k) && Keys(s[1..])))
    ensures Follows(none, s) && !Follows(some, s)
  {
    hide Follows;
    if s[0] == Iterate {
      FollowsIterate(none, s);
      assert k in some.fields;
      FollowsIterate(some, s);
    } else {
      FollowsName(none, s);
      FollowsName(some, s);
      NullHasKeys(s[1..]);
      TextStops(Str(""), s[1..]);
    }
  }

  lemma AnnotationSeparates(s: Selector, domain: string) returns (t: Json, u: Json)
    requires Varies(s, domain) && s[0] == Key(METADATA) && s[1] == Key(ANNOTATIONS)
    ensures Separates(t, u, s, domain)
  {
    hide Follows;
    DomainKeysDiffer(domain);
    var k := if s[2].Key? then s[2].name else SignatureKey(domain);
    t, u := Tree(map[], map[], map[]), Tree(map[], map[], map[k := Str("")]);
    var rest := s[1..];
    assert rest[1..] == s[2..] && s[2..][1..] == s[3..];
    FollowsName(t, s);
    FollowsName(u, s);
    FollowsName(t.fields[METADATA], rest);
    FollowsName(u.fields[METADATA], rest);
    ObjectSeparates(Obj(map[]), Obj(map[k := Str("")]), k, s[2..]);
  }

  lemma GeneratedSeparates(s: Selector, domain: string) returns (t: Json, u: Json)
    requires Varies(s, domain) && s[0] == Key(METADATA) && s[1] != Key(ANNOTATIONS)
    ensures Separates(t, u, s, domain)
  {
    hide Follows;
    var g := if s[1].Key? then s[1].name else "uid";
    var absent := Tree(map[], map[], map[]);
    var present := Tree(map[], map[g := if g == MANAGED_FIELDS then Arr([]) else Str("")], map[]);
    FollowsName(absent, s);
    FollowsName(present, s);
    var without, with := absent.fields[METADATA], present.fields[METADATA];
    if g == MANAGED_FIELDS {
      ManagedSeparates(without, with, s[1..]);
      if s[2] == Iterate { t, u := present, absent; } else { t, u := absent, present; }
    } else {
      t, u := absent, present;
      ScalarSeparates(without, with, g, s[1..]);
    }
  }

  lemma ScalarSeparates(without: Json, with: Json, g: string, s: Selector)
    requires without == Obj(map[ANNOTATIONS := Obj(map[])])
    requires with == Obj(map[g := Str(""), ANNOTATIONS := Obj(map[])]) && g != ANNOTATIONS
    requires |s| >= 2
    requires (s[0] == Iterate && (s[1] == Iterate || Keys(s[1..]))) || (s[0] == Key(g) && Keys(s[1..]))
    ensures Follows(without, s) && !Follows(with, s)
  {
    TextStops(Str(""), s[1..]);
    if s[0] == Iterate {
      assert Follows(Obj(map[]), s[1..]) by {
        if s[1].Key? {
          NullHasKeys(s[1..][1..]);
          FollowsName(Obj(map[]), s[1..]);
        }
      }
      assert g in with.fields && !Follows(with.fields[g], s[1..]);
      assert Follows(without, s);
    } else {
      NullHasKeys(s[1..]);
      hide Follows;
      FollowsName(without, s);
      FollowsName(with, s);
    }
  }

  lemma ManagedSeparates(without: Json, with: Json, s: Selector)
    requires without.Obj? && MANAGED_FIELDS !in without.fields
    requires with.Obj? && MANAGED_FIELDS in with.fields && with.fields[MANAGED_FIELDS] == Arr([])
    requires |s| >= 2 && s[0] == Key(MANAGED_FIELDS) && (s[1] == Iterate || Keys(s[1..]))
    ensures Follows(with, s) == (s[1] == Iterate) && Follows(without, s) == (s[1] != Iterate)
  {
    FollowsName(without, s);
    FollowsName(with, s);
    if s[1] == Iterate { ScalarStops(Null, s[1..]); } else { NullHasKeys(s[1..]); }
  }

  /** A typed manifest can be reduced to its canonical form exactly when the excludes can be followed. */
  lemma CanonicalIff(t: Json, s: Selector, domain: string)
    requires Typed(t)
    ensures Canonical(t, [s], domain).Some? <==> Follows(t, s)
  {
    hide Follows, Prune;
    var ss := Selected([s]);
    assert s in [s];
    forall x | x in ss && x != s ensures Follows(t, x) {
      AlwaysExcludedFollows(t, x);
    }
    PrunedField(t, ss, METADATA);
    PrunedField(t.fields[METADATA], Below(ss, METADATA), ANNOTATIONS);
  }

  /** Exactly the selectors that do not vary may be excluded: for any other one there are two typed
      manifests that differ only in what is not signed, of which one has a canonical form and the other none. */
  lemma ExcludeIsStableIff(s: Selector, domain: string)
    requires IsIndex(s)
    ensures !Varies(s, domain) <==>
            forall t, u :: Agree(t, u, domain) && Typed(t) && Typed(u) ==>
                             Canonical(t, [s], domain) == Canonical(u, [s], domain)
  {
    hide Agree, Canonical, Typed, Follows;
    if Varies(s, domain) {
      var t, u;
      if s[0] == Key(STATUS) {
        t, u := StatusSeparates(s, domain);
      } else if s[0] == Key(SPEC) {
        t, u := SpecSeparates(s, domain);
      } else if s[1] == Key(ANNOTATIONS) {
        t, u := AnnotationSeparates(s, domain);
      } else {
        t, u := GeneratedSeparates(s, domain);
      }
      CanonicalIff(t, s, domain);
      CanonicalIff(u, s, domain);
    } else {
      forall t, u | Agree(t, u, domain) && Typed(t) && Typed(u)
        ensures Canonical(t, [s], domain) == Canonical(u, [s], domain)
      {
        TypedFollowsAlike(t, u, domain, s);
        CanonicalIfFollowed(t, u, domain, [s]);
      }
    }
  }

  lemma AlwaysExcludedFollows(t: Json, s: Selector)
    requires t.Obj? && s in ALWAYS_EXCLUDED
    requires forall k :: k in {METADATA, SPEC} && k in t.fields ==> t.fields[k].Obj?
    ensures Follows(t, s)
  {
    if |s| == 2 {
      assert s == [Key(s[0].name), Key(s[1].name)];
      TwoKeysFollow(t, s[0].name, s[1].name);
    } else {
      assert s[1..] == [];
    }
  }

  // --------------------------------------------------------------- publishing

  predicate HasMetadata(t: Json) {
    t.Obj? && METADATA in t.fields && t.fields[METADATA].Obj?
  }

  /** A bundle tree as AddMetadata builds it: an object with metadata and annotations. */
  predicate IsBundleTree(t: Json) {
    && HasMetadata(t)
    && ANNOTATIONS in t.fields[METADATA].fields && t.fields[METADATA].fields[ANNOTATIONS].Obj?
  }

  function WithAnnotation(t: Json, key: string, value: string): Json
    requires IsBundleTree(t)
  {
    var meta := t.fields[METADATA].fields;
    Obj(t.fields[METADATA := Obj(meta[ANNOTATIONS := Obj(meta[ANNOTATIONS].fields[key := Str(value)])])])
  }

  /** The published document: no status and no generated metadata. */
  function Published(t: Json): Json
    requires HasMetadata(t)
  {
    Obj((t.fields - {STATUS})[METADATA := Obj(t.fields[METADATA].fields - GENERATED)])
  }

  const STRIPPED: set<Selector> := {[Key(STATUS)]} + set g | g in GENERATED :: [Key(METADATA), Key(g)]

  /** Publishing is itself such a deletion, of selectors that are always excluded. */
  lemma PublishingIsPruning(t: Json)
    requires HasMetadata(t)
    ensures STRIPPED <= ALWAYS_EXCLUDED && Published(t) == Prune(t, STRIPPED)
  {
    hide Prune, Cuts, Below;
    var p := Prune(t, STRIPPED);
    PrunedField(t, STRIPPED, METADATA);
    forall k ensures SameField(Published(t).fields, p.fields, k) {
      PrunedField(t, STRIPPED, k);
      StrippedBelow(k);
      if k == METADATA {
        PublishedMetadata(t.fields[METADATA]);
      } else if k in t.fields {
        PruneNothing(t.fields[k]);
      }
    }
    SameFields(Published(t).fields, p.fields);
  }

  lemma StrippedBelow(k: string)
    ensures Cuts(STRIPPED, k) <==> k == STATUS
    ensures Below(STRIPPED, k) == if k == METADATA then GENERATED_KEYS else {}
  {
    if k == METADATA {
      forall g | g in GENERATED ensures [Key(g)] in Below(STRIPPED, k) {
        assert [Key(METADATA), Key(g)] in STRIPPED;
        MetadataSelector(g);
      }
    }
  }

  lemma PublishedMetadata(meta: Json)
    requires meta.Obj?
    ensures Prune(meta, GENERATED_KEYS) == Obj(meta.fields - GENERATED)
  {
    forall k ensures SameField(Prune(meta, GENERATED_KEYS).fields, meta.fields - GENERATED, k) {
      PrunedField(meta, GENERATED_KEYS, k);
      GeneratedCuts(k);
      if k in meta.fields { PruneNothing(meta.fields[k]); }
    }
    SameFields(Prune(meta, GENERATED_KEYS).fields, meta.fields - GENERATED);
  }

  /** Signing and publishing a bundle touches nothing that is signed. */
  lemma PublishedAgrees(t: Json, domain: string, signature: string)
    requires IsBundleTree(t)
    ensures IsBundleTree(WithAnnotation(t, SignatureKey(domain), signature))
    ensures Agree(t, Published(WithAnnotation(t, SignatureKey(domain), signature)), domain)
  {
    DomainKeysDiffer(domain);
  }

  lemma DomainKeysDiffer(domain: string)
    ensures SignatureKey(domain) != IncludesKey(domain) && SignatureKey(domain) != ExcludesKey(domain)
  {
    assert SignatureKey(domain)[|domain| + 1] == 's';
    assert IncludesKey(domain)[|domain| + 1] == 'i';
    assert ExcludesKey(domain)[|domain| + 1] == 'e';
  }

  datatype Verdict = Refused(reason: string) | Checked(valid: bool)

  /** ValidateSignature, with an opaque check of a signature text against the signed tree. */
  function Validate(t: Json, domain: string, c: Codec, verify: (Json, string) -> bool): Verdict {
    if Excludes(t, domain, c).None? then Refused("invalid selector(s) provided")
    else
      match Annotation(t, SignatureKey(domain))
      case None => Refused("Missing signature")
      case Some(signature) =>
        if signature == "" then Refused("Missing signature")
        else
          match SignedTree(t, domain, c)
          case None => Refused("manifest cannot be filtered")
          case Some(tree) => Checked(verify(tree, signature))
  }

  /** Verify after sign: a bundle signed and published verifies, and so does whatever the API
      server makes of it that still agrees with it and carries the signature. */
  lemma SignedBundleVerifies(t: Json, u: Json, domain: string, c: Codec,
                             sign: Json -> string, verify: (Json, string) -> bool)
    requires IsBundleTree(t) && SignedTree(t, domain, c).Some?
    requires forall s :: s in Excludes(t, domain, c).value ==> IsStable(s, domain)
    requires forall tree :: verify(tree, sign(tree)) && sign(tree) != ""
    requires var signed := WithAnnotation(t, SignatureKey(domain), sign(SignedTree(t, domain, c).value));
             Agree(Published(signed), u, domain)
             && Annotation(u, SignatureKey(domain)) == Annotation(signed, SignatureKey(domain))
    ensures Validate(u, domain, c, verify) == Checked(true)
  {
    var signature := sign(SignedTree(t, domain, c).value);
    var published := Published(WithAnnotation(t, SignatureKey(domain), signature));
    PublishedAgrees(t, domain, signature);
    SignedTreeIsStable(t, published, domain, c);
    ExcludesAlike(t, published, domain, c);
    SignedTreeIsStable(published, u, domain, c);
    ExcludesAlike(published, u, domain, c);
  }

  /** A manifest is found valid exactly when its excludes decode, it carries a signature, it can be filtered
      under its excludes, and the signature checks against the tree that is left. */
  lemma ValidIff(t: Json, domain: string, c: Codec, verify: (Json, string) -> bool)
    ensures Validate(t, domain, c, verify) == Checked(true) <==>
            var signature, excludes := Annotation(t, domain + "/signature"), Excludes(t, domain, c);
            && excludes.Some? && signature.Some? && signature.value != ""
            && Canonical(t, excludes.value, domain).Some?
            && verify(Canonical(t, excludes.value, domain).value, signature.value)
  {
    hide Canonical, Annotation, Excludes;
  }

  /** A valid manifest has the tree that was signed: where a signature checks against no other tree than
      its own, whatever validates with the signature of a bundle has that bundle's signed tree. */
  lemma ValidManifestIsTheSigned(t: Json, u: Json, domain: string, c: Codec,
                                 sign: Json -> string, verify: (Json, string) -> bool)
    requires SignedTree(t, domain, c).Some?
    requires forall x, y :: verify(x, sign(y)) ==> x == y
    requires Annotation(u, SignatureKey(domain)) == Some(sign(SignedTree(t, domain, c).value))
    requires Validate(u, domain, c, verify) == Checked(true)
    ensures SignedTree(u, domain, c) == SignedTree(t, domain, c)
  {
    hide Canonical, Annotation, Excludes;
    ValidIff(u, domain, c, verify);
  }

  // ----------------------------------------------------------- implementation

  /** Decoded selectors are the parses of the non-empty lines, in order, and each starts with a key. */
  lemma {:induction false} ParseAllIff(lines: seq<string>, parse: string -> Option<Selector>)
    ensures ParseAll(lines, parse).Some? <==>
            forall l :: l in lines ==> parse(l).Some? && parse(l).value != [] && parse(l).value[0].Key?
    ensures ParseAll(lines, parse).Some? ==>
              && |ParseAll(lines, parse).value| == |lines|
              && forall i :: 0 <= i < |lines| ==> parse(lines[i]) == Some(ParseAll(lines, parse).value[i])
  {
    if lines != [] {
      var n := |lines| - 1;
      ParseAllIff(lines[..n], parse);
      assert lines == lines[..n] + [lines[n]];
    }
  }

  /** Filtering empties out of two lists put together is filtering each, and keeps every other text. */
  lemma {:induction false} NonEmptyOfConcat(a: seq<string>, b: seq<string>)
    ensures NonEmpty(a + b) == NonEmpty(a) + NonEmpty(b)
    ensures forall l :: l in NonEmpty(a) <==> l in a && l != ""
    decreases |a| + |b|
  {
    if b == [] {
      assert a + b == a;
      if a != [] {
        NonEmptyOfConcat(a[..|a| - 1], []);
        assert a == a[..|a| - 1] + [a[|a| - 1]];
      }
    } else {
      var n := |b| - 1;
      NonEmptyOfConcat(a, b[..n]);
      assert (a + b)[..|a + b| - 1] == a + b[..n];
    }
  }

  /** Drops empty strings in place, as the source does by appending to a slice of length zero. */
  method Filter(a: array<string>) returns (n: nat)
    modifies a
    ensures n <= a.Length && a[..n] == NonEmpty(old(a[..]))
  {
    n := 0;
    ghost var was := a[..];
    for i := 0 to a.Length
      invariant n <= i && a[..n] == NonEmpty(was[..i])
      invariant forall k :: i <= k < a.Length ==> a[k] == was[k]
    {
      assert was[..i + 1][..i] == was[..i];
      var s := a[i];
      if s != "" {
        a[n] := s;
        n := n + 1;
      }
    }
    assert was[..a.Length] == was;
  }

  method DecodeSelectorsText(text: string, c: Codec) returns (r: Option<seq<Selector>>)
    ensures r == DecodeSelectors(text, c)
  {
    hide Split, NonEmpty, IsIndex;
    var decoded := c.decode(text);
    if decoded.None? { return None; }
    var lines := Split(decoded.value, '\n');
    var a := new string[|lines|](i requires 0 <= i < |lines| => lines[i]);
    assert a[..] == lines;
    var n := Filter(a);
    var kept := a[..n];
    var selectors: seq<Selector> := [];
    for i := 0 to n
      invariant ParseAll(kept[..i], c.parse) == Some(selectors)
    {
      assert kept[..i + 1][..i] == kept[..i];
      var parsed := c.parse(kept[i]);
      if parsed.None? || !IsIndex(parsed.value) {
        ParseAllStops(kept, c.parse, i + 1);
        return None;
      }
      selectors := selectors + [parsed.value];
    }
    assert kept[..n] == kept;
    return Some(selectors);
  }

  lemma {:induction false} ParseAllStops(lines: seq<string>, parse: string -> Option<Selector>, i: nat)
    requires i <= |lines| && ParseAll(lines[..i], parse).None?
    ensures ParseAll(lines, parse).None?
  {
    if i == |lines| {
      assert lines[..i] == lines;
    } else {
      assert lines[..|lines| - 1][..i] == lines[..i];
      ParseAllStops(lines[..|lines| - 1], parse, i);
    }
  }

  method SerializeBundle(t: Json) returns (raw: Json)
    requires HasMetadata(t)
    ensures raw == Published(t)
  {
    var fields := t.fields - {STATUS};
    var meta := t.fields[METADATA].fields;
    var generated := ["creationTimestamp", "generation", "managedFields", "uid", "resourceVersion"];
    for i := 0 to |generated|
      invariant meta == t.fields[METADATA].fields - set g | g in generated[..i]
    {
      assert generated[..i + 1] == generated[..i] + [generated[i]];
      meta := meta - {generated[i]};
    }
    assert generated[..|generated|] == generated;
    assert (set g | g in generated) == GENERATED;
    raw := Obj(fields[METADATA := Obj(meta)]);
  }
}
