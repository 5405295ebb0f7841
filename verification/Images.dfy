/** Selecting the image versions of a bundle package from what the registry
    describes (generatebundlefile/ecr.go, generatebundlefile/ecr_helper.go). */
module Images {
  import opened Wrappers
  import opened Strings
  import opened Bundles

  /** An image as ECR describes it; None is a nil pointer, and a push time counts from Go's zero time. */
  datatype ImageDetail = ImageDetail(tags: seq<string>, digest: Option<string>,
                                     pushedAt: Option<int>, mediaType: Option<string>)

  /** How a lookup ends: with a value, with an error, or with a Go panic. */
  datatype Outcome<+T> = Value(value: T) | Error | Panic

  const MANIFEST := "application/vnd.oci.image.manifest.v1+json"

  // ------------------------------------------------------------------- paging

  /** Describe: the images of all pages up to the first page that fails. A
      failure of the first page is reported, a later one is not. */
  function Describe(pages: seq<Option<seq<ImageDetail>>>): (r: Result<seq<ImageDetail>>)
    requires pages != []
    ensures r.Ok? <==> pages[0].Some?
  {
    match pages[0]
    case None => Err("unable to complete DescribeImagesRequest to ECR")
    case Some(images) =>
      if |pages| == 1 then Ok(images)
      else
        match Describe(pages[1..])
        case Ok(rest) => Ok(images + rest)
        case Err(_) => Ok(images)
  }

  function Flatten(pages: seq<seq<ImageDetail>>): seq<ImageDetail> {
    if pages == [] then [] else pages[0] + Flatten(pages[1..])
  }

  /** The pages of a repository as they arrive when the request for page `failing` fails. */
  function Arriving(pages: seq<seq<ImageDetail>>, failing: nat): seq<Option<seq<ImageDetail>>> {
    seq(|pages|, i requires 0 <= i < |pages| => if i == failing then None else Some(pages[i]))
  }

  lemma {:induction false} DescribeStopsAtFailure(pages: seq<seq<ImageDetail>>, failing: nat)
    requires pages != [] && failing > 0
    ensures Describe(Arriving(pages, failing)) == Ok(Flatten(if failing < |pages| then pages[..failing] else pages))
  {
    var arriving := Arriving(pages, failing);
    var kept := if failing < |pages| then pages[..failing] else pages;
    if |pages| == 1 {
      assert Flatten(pages[1..]) == [] && pages[0] + [] == pages[0];
    } else {
      assert arriving[1..] == Arriving(pages[1..], failing - 1);
      if failing == 1 {
        assert Flatten(kept[1..]) == [] && pages[0] + [] == pages[0];
      } else {
        DescribeStopsAtFailure(pages[1..], failing - 1);
        assert kept[1..] == if failing - 1 < |pages[1..]| then pages[1..][..failing - 1] else pages[1..];
      }
    }
  }

  /** The whole repository is seen exactly when the first page arrives and nothing is lost behind a later failure. */
  lemma DescribeIsComplete(pages: seq<seq<ImageDetail>>, failing: nat)
    requires pages != []
    ensures Describe(Arriving(pages, failing)) == Ok(Flatten(pages)) <==>
            failing > 0 && (failing < |pages| ==> Flatten(pages[failing..]) == [])
  {
    hide Flatten, Describe, Arriving;
    if failing == 0 {
      FirstFailureIsReported(pages);
    } else {
      DescribeStopsAtFailure(pages, failing);
      if failing < |pages| {
        FlattenOfSplit(pages, failing);
        NothingAppended(Flatten(pages[..failing]), Flatten(pages[failing..]));
      }
    }
  }

  lemma FirstFailureIsReported(pages: seq<seq<ImageDetail>>)
    requires pages != []
    ensures Describe(Arriving(pages, 0)).Err?
  {
  }

  lemma NothingAppended<T>(a: seq<T>, b: seq<T>)
    ensures a == a + b <==> b == []
  {
    assert |a + b| == |a| + |b|;
  }

  lemma {:induction false} FlattenOfSplit(pages: seq<seq<ImageDetail>>, n: nat)
    requires n <= |pages|
    ensures Flatten(pages) == Flatten(pages[..n]) + Flatten(pages[n..])
  {
    if n > 0 {
      FlattenOfSplit(pages[1..], n - 1);
      assert pages[1..][..n - 1] == pages[..n][1..] && pages[1..][n - 1..] == pages[n..];
    } else {
      assert pages[..0] == [] && pages[0..] == pages;
    }
  }

  // ---------------------------------------------------------------- filtering

  predicate TagMatches(tag: string, version: string) {
    version <= tag && Contains(tag, "latest")
  }

  /** One copy of the image for each matching tag. */
  function Copies(detail: ImageDetail, tags: seq<string>, version: string): seq<ImageDetail> {
    if tags == [] then []
    else
      Copies(detail, tags[..|tags| - 1], version) +
      if TagMatches(tags[|tags| - 1], version) then [detail] else []
  }

  function Filtered(details: seq<ImageDetail>, version: string): seq<ImageDetail> {
    if details == [] then []
    else
      var last := details[|details| - 1];
      Filtered(details[..|details| - 1], version) + Copies(last, last.tags, version)
  }

  /** ImageTagFilter, with its nested loops. */
  method ImageTagFilter(details: seq<ImageDetail>, version: string) returns (filtered: seq<ImageDetail>)
    ensures filtered == Filtered(details, version)
  {
    filtered := [];
    for i := 0 to |details|
      invariant filtered == Filtered(details[..i], version)
    {
      var detail := details[i];
      ghost var before := filtered;
      for j := 0 to |detail.tags|
        invariant filtered == before + Copies(detail, detail.tags[..j], version)
      {
        assert detail.tags[..j + 1][..j] == detail.tags[..j];
        if TagMatches(detail.tags[j], version) { filtered := filtered + [detail]; }
      }
      assert detail.tags[..|detail.tags|] == detail.tags;
      assert details[..i + 1][..i] == details[..i];
    }
    assert details[..|details|] == details;
  }

  predicate Tagged(detail: ImageDetail, version: string) {
    exists tag :: tag in detail.tags && version <= tag && Contains(tag, "latest")
  }

  lemma {:induction false} CopiesOf(detail: ImageDetail, tags: seq<string>, version: string)
    ensures forall d :: d in Copies(detail, tags, version) ==> d == detail
    ensures Copies(detail, tags, version) == [] <==> forall tag :: tag in tags ==> !TagMatches(tag, version)
  {
    hide TagMatches;
    if tags != [] {
      CopiesOf(detail, tags[..|tags| - 1], version);
      assert forall tag :: tag in tags <==> tag in tags[..|tags| - 1] || tag == tags[|tags| - 1];
    }
  }

  /** The filter keeps exactly the images with a matching tag. */
  lemma {:induction false} FilteredMembers(details: seq<ImageDetail>, version: string)
    ensures forall d :: d in Filtered(details, version) <==> d in details && Tagged(d, version)
  {
    hide Copies, Tagged;
    if details != [] {
      var n := |details| - 1;
      FilteredMembers(details[..n], version);
      CopiesOf(details[n], details[n].tags, version);
      TaggedHasCopies(details[n], version);
      assert details == details[..n] + [details[n]];
      var copies := Copies(details[n], details[n].tags, version);
      assert copies == [] || copies[0] in copies;
    }
  }

  // ------------------------------------------------------------ latest image

  /** The fields read before the media type is looked at. */
  predicate Described(d: ImageDetail) {
    d.pushedAt.Some? && d.digest.Some? && d.tags != []
  }

  /** Reading the media type of such an image is a nil dereference. */
  predicate Crashes(d: ImageDetail) { Described(d) && d.mediaType.None? }

  predicate Eligible(d: ImageDetail) { Described(d) && d.mediaType == Some(MANIFEST) }

  function VersionOf(d: ImageDetail): SourceVersion
    requires Eligible(d)
  {
    SourceVersion(d.tags[0], d.digest.value, [])
  }

  /** The first image of greatest push time among the eligible ones, pushed after the zero time. */
  ghost predicate IsLatest(details: seq<ImageDetail>, i: nat) {
    && i < |details| && Eligible(details[i]) && details[i].pushedAt.value > 0
    && forall j :: 0 <= j < |details| && Eligible(details[j]) ==>
         && details[j].pushedAt.value <= details[i].pushedAt.value
         && (j < i ==> details[j].pushedAt.value < details[i].pushedAt.value)
  }

  ghost predicate SomeCrash(details: seq<ImageDetail>) {
    exists d :: d in details && Crashes(d)
  }

  /** What getLatestImageSha promises; its error for an empty selection cannot
      arise, because the empty selection already carries a push time. */
  ghost function Latest(details: seq<ImageDetail>): Outcome<SourceVersion> {
    if SomeCrash(details) then Panic
    else if i: nat :| IsLatest(details, i) then Value(VersionOf(details[i]))
    else Panic
  }

  /** getLatestImageSha, as coded. */
  method GetLatestImageSha(details: seq<ImageDetail>) returns (r: Outcome<SourceVersion>)
    ensures r == Latest(details)
    ensures r != Error
  {
    var latest := ImageDetail([], None, Some(0), None);
    ghost var at: Option<nat> := None;
    for i := 0 to |details|
      invariant !SomeCrash(details[..i])
      invariant latest.pushedAt.Some?
      invariant at.None? ==> latest == ImageDetail([], None, Some(0), None)
      invariant at.None? ==> forall j :: 0 <= j < i && Eligible(details[j]) ==> details[j].pushedAt.value <= 0
      invariant at.Some? ==> IsLatest(details[..i], at.value) && latest == details[at.value]
    {
      var detail := details[i];
      assert details[..i + 1] == details[..i] + [detail];
      if detail.pushedAt.None? || detail.digest.None? || detail.tags == [] { continue; }
      if detail.mediaType.None? {
        assert Crashes(detail) && detail in details;
        return Panic;
      }
      if detail.mediaType.value != MANIFEST { continue; }
      if latest.pushedAt.value < detail.pushedAt.value {
        latest := detail;
        at := Some(i);
      }
    }
    assert details[..|details|] == details;
    if latest.tags == [] { return Panic; }
    LatestIsUnique(details, at.value);
    return Value(SourceVersion(latest.tags[0], latest.digest.value, []));
  }

  lemma LatestIsUnique(details: seq<ImageDetail>, i: nat)
    requires IsLatest(details, i) && !SomeCrash(details)
    ensures Latest(details) == Value(VersionOf(details[i]))
  {
    assert forall j: nat :: IsLatest(details, j) ==> j == i;
  }

  /** An eligible image with a tag that starts with the version and contains "latest". */
  predicate Candidate(d: ImageDetail, version: string) { Eligible(d) && Tagged(d, version) }

  /** The first candidate of greatest push time in the repository. */
  ghost predicate IsLatestTagged(details: seq<ImageDetail>, version: string, i: nat) {
    && i < |details| && Candidate(details[i], version) && details[i].pushedAt.value > 0
    && forall j :: 0 <= j < |details| && Candidate(details[j], version) ==>
         && details[j].pushedAt.value <= details[i].pushedAt.value
         && (j < i ==> details[j].pushedAt.value < details[i].pushedAt.value)
  }

  /** Filtering keeps the latest candidate the latest, though it repeats images. */
  lemma {:induction false} FilteredLatest(details: seq<ImageDetail>, version: string, i: nat)
    requires IsLatestTagged(details, version, i)
    ensures exists k: nat :: IsLatest(Filtered(details, version), k) && Filtered(details, version)[k] == details[i]
  {
    hide Copies, Tagged;
    var n := |details| - 1;
    var prefix, last := details[..n], details[n];
    var kept, copies := Filtered(prefix, version), Copies(last, last.tags, version);
    FilteredMembers(prefix, version);
    CopiesOf(last, last.tags, version);
    TaggedHasCopies(last, version);
    assert forall d :: d in prefix ==> exists j :: 0 <= j < n && details[j] == d;
    assert Filtered(details, version) == kept + copies;
    if i == n {
      assert copies[0] in copies;
      FirstCopyIsLatest(kept, copies);
    } else {
      assert IsLatestTagged(prefix, version, i);
      FilteredLatest(prefix, version, i);
      var k: nat :| IsLatest(kept, k) && kept[k] == details[i];
      assert forall d :: d in copies ==> d == last && copies != [];
      StaysLatest(kept, copies, k);
    }
  }

  lemma FirstCopyIsLatest(kept: seq<ImageDetail>, copies: seq<ImageDetail>)
    requires copies != [] && Eligible(copies[0]) && copies[0].pushedAt.value > 0
    requires forall d :: d in copies ==> d == copies[0]
    requires forall d :: d in kept && Eligible(d) ==> d.pushedAt.value < copies[0].pushedAt.value
    ensures IsLatest(kept + copies, |kept|)
  {
    var all := kept + copies;
    assert forall j :: 0 <= j < |kept| ==> all[j] in kept;
    assert forall j :: |kept| <= j < |all| ==> all[j] in copies;
  }

  lemma StaysLatest(kept: seq<ImageDetail>, more: seq<ImageDetail>, k: nat)
    requires IsLatest(kept, k)
    requires forall d :: d in more && Eligible(d) ==> d.pushedAt.value <= kept[k].pushedAt.value
    ensures IsLatest(kept + more, k)
  {
  }

  lemma TaggedHasCopies(d: ImageDetail, version: string)
    ensures Tagged(d, version) <==> Copies(d, d.tags, version) != []
  {
    hide Contains, Copies;
    CopiesOf(d, d.tags, version);
  }

  /** A greatest push time is reached first by some image. */
  lemma {:induction false} SomeIsLatest(details: seq<ImageDetail>, version: string)
    requires exists d :: d in details && Candidate(d, version) && d.pushedAt.value > 0
    ensures exists i: nat :: IsLatestTagged(details, version, i)
  {
    hide Tagged;
    var n := |details| - 1;
    var prefix, last := details[..n], details[n];
    assert details == prefix + [last];
    if exists d :: d in prefix && Candidate(d, version) && d.pushedAt.value > 0 {
      SomeIsLatest(prefix, version);
      var i: nat :| IsLatestTagged(prefix, version, i);
      if Candidate(last, version) && last.pushedAt.value > prefix[i].pushedAt.value {
        assert IsLatestTagged(details, version, n);
      } else {
        assert IsLatestTagged(details, version, i);
      }
    } else {
      assert forall j :: 0 <= j < n ==> details[j] in prefix;
      assert IsLatestTagged(details, version, n);
    }
  }

  /** The lookup of the latest image with a version prefix panics exactly when
      a matching image has no media type or no candidate was pushed after the
      zero time; otherwise it gives the first candidate of greatest push time. */
  lemma LatestSelection(details: seq<ImageDetail>, version: string)
    ensures var r := Latest(Filtered(details, version));
            var crash := exists d :: d in details && Tagged(d, version) && Crashes(d);
            var some := exists d :: d in details && Candidate(d, version) && d.pushedAt.value > 0;
            && (r == Panic <==> crash || !some)
            && (!crash && some ==>
                 exists i: nat :: IsLatestTagged(details, version, i) && r == Value(VersionOf(details[i])))
  {
    hide Filtered, Tagged;
    var kept := Filtered(details, version);
    FilteredMembers(details, version);
    assert SomeCrash(kept) <==> exists d :: d in details && Tagged(d, version) && Crashes(d);
    if exists d :: d in details && Candidate(d, version) && d.pushedAt.value > 0 {
      SomeIsLatest(details, version);
      var i: nat :| IsLatestTagged(details, version, i);
      FilteredLatest(details, version, i);
      var k: nat :| IsLatest(kept, k) && kept[k] == details[i];
      if !SomeCrash(kept) { LatestIsUnique(kept, k); }
    } else {
      assert forall d :: d in kept && Eligible(d) ==> d.pushedAt.value <= 0;
    }
  }

  // --------------------------------------------------------------- duplicates

  predicate HasName(versions: seq<SourceVersion>, name: string) {
    exists v :: v in versions && v.name == name
  }

  function Bare(v: SourceVersion): SourceVersion { SourceVersion(v.name, v.digest, []) }

  function FirstOfEachName(s: seq<SourceVersion>): seq<SourceVersion> {
    if s == [] then []
    else
      var kept, last := FirstOfEachName(s[..|s| - 1]), s[|s| - 1];
      if HasName(s[..|s| - 1], last.name) then kept else kept + [Bare(last)]
  }

  /** removeDuplicates, with its map of names seen. */
  method RemoveDuplicates(s: seq<SourceVersion>) returns (l: seq<SourceVersion>)
    ensures l == FirstOfEachName(s)
  {
    var seen: map<string, bool> := map[];
    l := [];
    for i := 0 to |s|
      invariant l == FirstOfEachName(s[..i])
      invariant forall name :: name in seen <==> HasName(s[..i], name)
    {
      assert s[..i + 1][..i] == s[..i];
      assert s[..i + 1] == s[..i] + [s[i]];
      if s[i].name !in seen {
        seen := seen[s[i].name := true];
        l := l + [SourceVersion(s[i].name, s[i].digest, [])];
      }
    }
    assert s[..|s|] == s;
  }

  /** No name earlier in the list is the name at i. */
  ghost predicate IsFirst(s: seq<SourceVersion>, i: nat) {
    i < |s| && forall j :: 0 <= j < i ==> s[j].name != s[i].name
  }

  /** `at` lists, in order, exactly the positions where a name occurs for the first time. */
  ghost predicate FirstPositions(s: seq<SourceVersion>, at: seq<nat>) {
    && (forall k :: 0 <= k < |at| ==> IsFirst(s, at[k]))
    && (forall k, l :: 0 <= k < l < |at| ==> at[k] < at[l])
    && (forall i: nat :: IsFirst(s, i) ==> i in at)
  }

  ghost predicate Picks(s: seq<SourceVersion>, at: seq<nat>, r: seq<SourceVersion>) {
    |at| == |r| && forall k :: 0 <= k < |at| ==> at[k] < |s| && r[k] == Bare(s[at[k]])
  }

  /** The list keeps the first occurrence of each name, in order, and nothing else. */
  lemma {:induction false} KeepsFirstOccurrences(s: seq<SourceVersion>)
    ensures exists at :: FirstPositions(s, at) && Picks(s, at, FirstOfEachName(s))
  {
    hide HasName, FirstPositions, IsFirst, Picks;
    if s == [] {
      NoPositions();
      assert Picks(s, [], FirstOfEachName(s));
    } else {
      var n := |s| - 1;
      KeepsFirstOccurrences(s[..n]);
      var at :| FirstPositions(s[..n], at) && Picks(s[..n], at, FirstOfEachName(s[..n]));
      LastIsFirst(s);
      FirstPositionsGrow(s, at);
      PicksGrow(s, at, FirstOfEachName(s[..n]));
      var next := if IsFirst(s, n) then at + [n] else at;
      assert FirstPositions(s, next) && Picks(s, next, FirstOfEachName(s));
    }
  }

  lemma NoPositions()
    ensures FirstPositions([], []) && Picks([], [], [])
  {
  }

  lemma PicksGrow(s: seq<SourceVersion>, at: seq<nat>, r: seq<SourceVersion>)
    requires s != [] && Picks(s[..|s| - 1], at, r)
    ensures Picks(s, at, r) && Picks(s, at + [|s| - 1], r + [Bare(s[|s| - 1])])
  {
  }

  lemma LastIsFirst(s: seq<SourceVersion>)
    requires s != []
    ensures IsFirst(s, |s| - 1) <==> !HasName(s[..|s| - 1], s[|s| - 1].name)
  {
  }

  lemma FirstPositionsGrow(s: seq<SourceVersion>, at: seq<nat>)
    requires s != [] && FirstPositions(s[..|s| - 1], at)
    ensures FirstPositions(s, if IsFirst(s, |s| - 1) then at + [|s| - 1] else at)
  {
    hide IsFirst;
    var n := |s| - 1;
    var next := if IsFirst(s, n) then at + [n] else at;
    forall k | 0 <= k < |at| ensures at[k] < n && IsFirst(s, at[k]) { FirstStays(s, at[k]); }
    forall i: nat | IsFirst(s, i) ensures i in next {
      FirstStays(s, i);
      if i == n { assert next[|at|] == n; }
    }
  }

  lemma FirstStays(s: seq<SourceVersion>, i: nat)
    requires s != []
    ensures IsFirst(s[..|s| - 1], i) <==> i < |s| - 1 && IsFirst(s, i)
    ensures IsFirst(s, i) ==> i < |s|
  {
  }

  /** So the names are distinct and are the names of the input. */
  lemma NamesAreDistinct(s: seq<SourceVersion>)
    ensures var r := FirstOfEachName(s);
            && (forall k, l :: 0 <= k < l < |r| ==> r[k].name != r[l].name)
            && (forall name :: HasName(r, name) <==> HasName(s, name))
  {
    hide FirstOfEachName, FirstPositions, Picks, HasName;
    var r := FirstOfEachName(s);
    KeepsFirstOccurrences(s);
    var at :| FirstPositions(s, at) && Picks(s, at, r);
    forall k, l | 0 <= k < l < |r| ensures r[k].name != r[l].name {
      PickedNamesDiffer(s, at, r, k, l);
    }
    forall name ensures HasName(r, name) <==> HasName(s, name) {
      PickedNames(s, at, r, name);
    }
  }

  /** A version is listed exactly when it is the first of its name. */
  lemma ListedIffFirst(s: seq<SourceVersion>, v: SourceVersion)
    ensures v in FirstOfEachName(s) <==> exists i: nat :: IsFirst(s, i) && Bare(s[i]) == v
  {
    hide FirstOfEachName, IsFirst;
    var r := FirstOfEachName(s);
    KeepsFirstOccurrences(s);
    var at :| FirstPositions(s, at) && Picks(s, at, r);
    if v in r {
      var k :| 0 <= k < |r| && r[k] == v;
      assert IsFirst(s, at[k]);
    }
    if i: nat :| IsFirst(s, i) && i < |s| && Bare(s[i]) == v {
      var k :| 0 <= k < |at| && at[k] == i;
      assert r[k] in r;
    }
  }

  lemma PickedNamesDiffer(s: seq<SourceVersion>, at: seq<nat>, r: seq<SourceVersion>, k: nat, l: nat)
    requires FirstPositions(s, at) && Picks(s, at, r) && k < l < |r|
    ensures r[k].name != r[l].name
  {
    assert IsFirst(s, at[l]) && at[k] < at[l];
  }

  lemma PickedNames(s: seq<SourceVersion>, at: seq<nat>, r: seq<SourceVersion>, name: string)
    requires FirstPositions(s, at) && Picks(s, at, r)
    ensures HasName(r, name) <==> HasName(s, name)
  {
    if HasName(r, name) {
      var k :| 0 <= k < |r| && r[k].name == name;
      assert s[at[k]] in s;
    }
    if HasName(s, name) {
      var i := FirstWithName(s, name);
      var k :| 0 <= k < |at| && at[k] == i;
      assert r[k] in r;
    }
  }

  lemma {:induction false} FirstWithName(s: seq<SourceVersion>, name: string) returns (i: nat)
    requires HasName(s, name)
    ensures IsFirst(s, i) && s[i].name == name
  {
    var n := |s| - 1;
    assert s == s[..n] + [s[n]];
    if HasName(s[..n], name) {
      i := FirstWithName(s[..n], name);
    } else {
      i := n;
    }
  }

  // ------------------------------------------------------------------ lookups

  const SUFFIX := "-latest"

  /** The first element of splitting at every "-latest". */
  function BeforeLatest(name: string): string {
    if SUFFIX <= name || name == "" then "" else [name[0]] + BeforeLatest(name[1..])
  }

  /** The version prefix of the tag P-latest is P exactly when P does not itself contain "-latest". */
  lemma {:induction false} PrefixOfLatestTag(p: string)
    ensures BeforeLatest(p + SUFFIX) == p <==> !Contains(p, SUFFIX)
  {
    var name := p + SUFFIX;
    if p == "" {
      assert name == SUFFIX;
    } else {
      assert name[1..] == p[1..] + SUFFIX;
      PrefixOfLatestTag(p[1..]);
      StartsOrNot(p);
      ContainsFromHere(p, SUFFIX);
      assert [p[0]] + p[1..] == p;
    }
  }

  /** "-latest" does not overlap itself, so a text before it starts with it alone or not at all. */
  lemma StartsOrNot(p: string)
    requires p != ""
    ensures SUFFIX <= p + SUFFIX <==> SUFFIX <= p
  {
    assert (p + SUFFIX)[|p|] == '-';
  }

  lemma ContainsFromHere(s: string, part: string)
    requires s != "" && part != ""
    ensures Contains(s, part) <==> part <= s || Contains(s[1..], part)
  {
    if Contains(s[1..], part) {
      var i :| 0 <= i <= |s[1..]| && part <= s[1..][i..];
      assert s[1..][i..] == s[i + 1..];
    }
    if Contains(s, part) {
      var i :| 0 <= i <= |s| && part <= s[i..];
      if i > 0 { assert s[1..][i - 1..] == s[i..]; }
    }
    assert s[0..] == s;
  }

  /** The versions taken for an exact tag: one for each described manifest. */
  function Exact(name: string, images: seq<ImageDetail>): Outcome<seq<SourceVersion>> {
    if images == [] then Value([])
    else
      var n := |images| - 1;
      var image := images[n];
      var before := Exact(name, images[..n]);
      if !before.Value? then before
      else if image.mediaType.None? then Panic
      else if image.mediaType.value != MANIFEST || image.tags == [] then before
      else if image.digest.None? then Panic
      else Value(before.value + [SourceVersion(name, image.digest.value, [])])
  }

  /** What one requested version adds, given the registry's reply to it. */
  ghost function Lookup(name: string, reply: Result<seq<ImageDetail>>): Outcome<seq<SourceVersion>> {
    if EndsWith(name, "latest") && name != "latest" && !EndsWith(name, SUFFIX) then Value([])
    else if reply.Err? then Error
    else if !EndsWith(name, "latest") then Exact(name, reply.value)
    else
      match Latest(Filtered(reply.value, if name == "latest" then "" else BeforeLatest(name)))
      case Value(v) => Value([v])
      case Error => Error
      case Panic => Panic
  }

  ghost function LookupAll(names: seq<string>, replies: seq<Result<seq<ImageDetail>>>): Outcome<seq<SourceVersion>>
    requires |names| == |replies|
  {
    if names == [] then Value([])
    else
      var n := |names| - 1;
      var before := LookupAll(names[..n], replies[..n]);
      if !before.Value? then before
      else
        match Lookup(names[n], replies[n])
        case Value(v) => Value(before.value + v)
        case Error => Error
        case Panic => Panic
  }

  /** GetShaForInputs: the requested versions one by one, the first failure ending it. */
  method GetShaForInputs(names: seq<string>, replies: seq<Result<seq<ImageDetail>>>)
    returns (r: Outcome<seq<SourceVersion>>)
    requires |names| == |replies|
    ensures LookupAll(names, replies).Value? ==> r == Value(FirstOfEachName(LookupAll(names, replies).value))
    ensures !LookupAll(names, replies).Value? ==> r == LookupAll(names, replies)
  {
    hide Lookup, FirstOfEachName;
    var versions := [];
    for i := 0 to |names|
      invariant LookupAll(names[..i], replies[..i]) == Value(versions)
    {
      assert names[..i + 1][..i] == names[..i] && replies[..i + 1][..i] == replies[..i];
      var found := LookupVersion(names[i], replies[i]);
      if !found.Value? {
        StaysFailed(names, replies, i + 1);
        return found;
      }
      versions := versions + found.value;
    }
    assert names[..|names|] == names && replies[..|replies|] == replies;
    var unique := RemoveDuplicates(versions);
    return Value(unique);
  }

  /** One round of its loop. */
  method LookupVersion(name: string, reply: Result<seq<ImageDetail>>) returns (r: Outcome<seq<SourceVersion>>)
    ensures r == Lookup(name, reply)
  {
    hide Filtered, Latest, BeforeLatest, Exact;
    SuffixesNest(name);
    var versions := [];
    if !EndsWith(name, "latest") {
      if reply.Err? { return Error; }
      var exact := ExactVersions(name, reply.value);
      if !exact.Value? { return Panic; }
      versions := versions + exact.value;
      assert versions == exact.value;
    }
    if name == "latest" {
      if reply.Err? { return Error; }
      var filtered := ImageTagFilter(reply.value, "");
      var sha := GetLatestImageSha(filtered);
      if !sha.Value? { return Panic; }
      versions := versions + [sha.value];
      assert versions == [sha.value];
      return Value(versions);
    }
    if EndsWith(name, SUFFIX) {
      if reply.Err? { return Error; }
      var filtered := ImageTagFilter(reply.value, BeforeLatest(name));
      var sha := GetLatestImageSha(filtered);
      if !sha.Value? { return Panic; }
      versions := versions + [sha.value];
      assert versions == [sha.value];
      return Value(versions);
    }
    return Value(versions);
  }

  /** A manifest that is described and tagged. */
  predicate IsManifest(d: ImageDetail) {
    d.mediaType == Some("application/vnd.oci.image.manifest.v1+json") && d.tags != []
  }

  /** What a plain tag yields: under its name the digests of exactly the tagged manifests described
      for it, and a panic exactly when a media type, or the digest of such a manifest, is missing. */
  lemma {:induction false} ExactIff(name: string, images: seq<ImageDetail>)
    ensures Exact(name, images) != Error
    ensures Exact(name, images) == Panic <==>
            exists d :: d in images && (d.mediaType.None? || (IsManifest(d) && d.digest.None?))
    ensures Exact(name, images).Value? ==>
              forall v :: v in Exact(name, images).value <==>
                exists d :: d in images && IsManifest(d) && d.digest.Some?
                            && v == SourceVersion(name, d.digest.value, [])
  {
    if images != [] {
      var n := |images| - 1;
      ExactIff(name, images[..n]);
      assert images == images[..n] + [images[n]];
    }
  }

  /** So an input that is a plain tag lists its tag, with a digest of a manifest described for it. */
  lemma PlainTagIsAnswered(names: seq<string>, replies: seq<Result<seq<ImageDetail>>>, k: nat, d: ImageDetail)
    requires |names| == |replies| && k < |names| && LookupAll(names, replies).Value?
    requires !EndsWith(names[k], "latest")
    requires replies[k].Ok? && d in replies[k].value && IsManifest(d)
    ensures d.digest.Some?
    ensures SourceVersion(names[k], d.digest.value, []) in LookupAll(names, replies).value
    ensures HasName(FirstOfEachName(LookupAll(names, replies).value), names[k])
  {
    hide LookupAll, FirstOfEachName, Exact, HasName, EndsWith;
    EveryVersionIsAnswered(names, replies, k);
    SuffixesNest(names[k]);
    ExactIff(names[k], replies[k].value);
    assert Lookup(names[k], replies[k]) == Exact(names[k], replies[k].value);
    AnswersAreListed(names, replies, k, SourceVersion(names[k], d.digest.value, []));
  }

  method ExactVersions(name: string, images: seq<ImageDetail>) returns (r: Outcome<seq<SourceVersion>>)
    ensures r == Exact(name, images)
    ensures r != Error
  {
    var versions := [];
    for i := 0 to |images|
      invariant Exact(name, images[..i]) == Value(versions)
    {
      assert images[..i + 1][..i] == images[..i];
      if images[i].mediaType.None? { ExactStaysFailed(name, images, i + 1); return Panic; }
      if images[i].mediaType.value != MANIFEST || images[i].tags == [] { continue; }
      if images[i].digest.None? { ExactStaysFailed(name, images, i + 1); return Panic; }
      versions := versions + [SourceVersion(name, images[i].digest.value, [])];
    }
    assert images[..|images|] == images;
    return Value(versions);
  }

  lemma {:induction false} ExactStaysFailed(name: string, images: seq<ImageDetail>, i: nat)
    requires i <= |images| && !Exact(name, images[..i]).Value?
    ensures Exact(name, images) == Exact(name, images[..i])
    decreases |images|
  {
    if i == |images| {
      assert images[..i] == images;
    } else {
      var n := |images| - 1;
      assert images[..n][..i] == images[..i];
      ExactStaysFailed(name, images[..n], i);
    }
  }

  lemma {:induction false} StaysFailed(names: seq<string>, replies: seq<Result<seq<ImageDetail>>>, i: nat)
    requires |names| == |replies| && i <= |names| && !LookupAll(names[..i], replies[..i]).Value?
    ensures LookupAll(names, replies) == LookupAll(names[..i], replies[..i])
    decreases |names|
  {
    hide Lookup;
    if i == |names| {
      assert names[..i] == names && replies[..i] == replies;
    } else {
      var n := |names| - 1;
      assert names[..n][..i] == names[..i] && replies[..n][..i] == replies[..i];
      StaysFailed(names[..n], replies[..n], i);
    }
  }

  lemma SuffixesNest(name: string)
    ensures EndsWith(name, SUFFIX) || name == "latest" ==> EndsWith(name, "latest")
  {
    if EndsWith(name, SUFFIX) {
      assert name[|name| - 6..] == name[|name| - 7..][1..];
    }
  }

  /** A successful request answers every version, and what a version adds is
      listed by name: with its own digest unless an earlier one took the name. */
  lemma {:induction false} EveryVersionIsAnswered(names: seq<string>, replies: seq<Result<seq<ImageDetail>>>, k: nat)
    requires |names| == |replies| && k < |names| && LookupAll(names, replies).Value?
    ensures Lookup(names[k], replies[k]).Value? && LookupAll(names[..k], replies[..k]).Value?
    ensures LookupAll(names[..k], replies[..k]).value + Lookup(names[k], replies[k]).value
         <= LookupAll(names, replies).value
  {
    hide Lookup;
    var n := |names| - 1;
    if k < n {
      assert names[..n][..k] == names[..k] && replies[..n][..k] == replies[..k];
      EveryVersionIsAnswered(names[..n], replies[..n], k);
    }
  }

  /** The version is that of the first candidate of greatest push time. */
  ghost predicate IsLatestVersion(details: seq<ImageDetail>, version: string, v: SourceVersion) {
    exists i: nat :: IsLatestTagged(details, version, i) && v == VersionOf(details[i])
  }

  /** The inputs P-latest, and the input latest, which accepts every prefix. */
  predicate AsksForLatest(name: string, p: string) {
    (name == "latest" && p == "") || (name == p + "-latest" && !Contains(p, "-latest"))
  }

  /** A successful request for P-latest finds the first image of greatest push time among the
      manifests tagged P...latest. It lists that image, digest included, exactly when no
      earlier answer took its name for another digest. */
  lemma LatestInputIsAnswered(names: seq<string>, replies: seq<Result<seq<ImageDetail>>>, k: nat, p: string)
    requires |names| == |replies| && k < |names| && LookupAll(names, replies).Value?
    requires AsksForLatest(names[k], p)
    ensures replies[k].Ok?
    ensures var all := LookupAll(names, replies).value;
            exists v ::
              && IsLatestVersion(replies[k].value, p, v) && v in all
              && HasName(FirstOfEachName(all), v.name)
              && (v in FirstOfEachName(all) <==> exists i: nat :: IsFirst(all, i) && Bare(all[i]) == v)
  {
    hide Lookup, LookupAll, FirstOfEachName, IsLatestVersion, HasName, AsksForLatest;
    EveryVersionIsAnswered(names, replies, k);
    LookupOfLatest(names[k], p, replies[k]);
    var v := Lookup(names[k], replies[k]).value[0];
    AnswersAreListed(names, replies, k, v);
    ListedIffFirst(LookupAll(names, replies).value, v);
  }

  /** All replies describe one repository: a tag belongs to one image, and a request for a tag
      is answered with images that bear it. */
  ghost predicate OneRepository(names: seq<string>, replies: seq<Result<seq<ImageDetail>>>, digestOf: string -> string)
    requires |names| == |replies|
  {
    forall k, d :: 0 <= k < |names| && replies[k].Ok? && d in replies[k].value && d.digest.Some? ==>
      && (forall tag :: tag in d.tags ==> digestOf(tag) == d.digest.value)
      && (!EndsWith(names[k], "latest") && d.tags != [] ==> names[k] in d.tags)
  }

  ghost predicate Tells(versions: seq<SourceVersion>, digestOf: string -> string) {
    forall v :: v in versions ==> v.digest == digestOf(v.name) && v == Bare(v)
  }

  lemma {:induction false} ExactTells(name: string, images: seq<ImageDetail>, digestOf: string -> string)
    requires Exact(name, images).Value?
    requires forall d :: d in images && d.digest.Some? && d.tags != [] ==> digestOf(name) == d.digest.value
    ensures Tells(Exact(name, images).value, digestOf)
  {
    if images != [] {
      var n := |images| - 1;
      assert images[n] in images && forall d :: d in images[..n] ==> d in images;
      ExactTells(name, images[..n], digestOf);
    }
  }

  lemma LookupTells(names: seq<string>, replies: seq<Result<seq<ImageDetail>>>, digestOf: string -> string, k: nat)
    requires |names| == |replies| && k < |names| && OneRepository(names, replies, digestOf)
    requires Lookup(names[k], replies[k]).Value?
    ensures Tells(Lookup(names[k], replies[k]).value, digestOf)
  {
    hide Latest, Filtered, BeforeLatest, Exact;
    var name := names[k];
    SuffixesNest(name);
    if !EndsWith(name, "latest") {
      ExactTells(name, replies[k].value, digestOf);
    } else if name == "latest" || EndsWith(name, SUFFIX) {
      LatestTells(replies[k].value, if name == "latest" then "" else BeforeLatest(name), digestOf);
    }
  }

  lemma LatestTells(details: seq<ImageDetail>, version: string, digestOf: string -> string)
    requires Latest(Filtered(details, version)).Value?
    requires forall d, tag :: d in details && d.digest.Some? && tag in d.tags ==> digestOf(tag) == d.digest.value
    ensures Tells([Latest(Filtered(details, version)).value], digestOf)
  {
    hide Latest, Filtered, Tagged;
    LatestFound(details, version);
    var v := Latest(Filtered(details, version)).value;
    var i: nat :| IsLatestTagged(details, version, i) && v == VersionOf(details[i]);
    assert details[i] in details && details[i].tags[0] in details[i].tags;
  }

  lemma {:induction false} AllTell(names: seq<string>, replies: seq<Result<seq<ImageDetail>>>,
                                   digestOf: string -> string)
    requires |names| == |replies| && OneRepository(names, replies, digestOf) && LookupAll(names, replies).Value?
    ensures Tells(LookupAll(names, replies).value, digestOf)
  {
    hide Lookup, OneRepository;
    if names != [] {
      var n := |names| - 1;
      OneRepositoryBefore(names, replies, digestOf);
      AllTell(names[..n], replies[..n], digestOf);
      LookupTells(names, replies, digestOf, n);
    }
  }

  lemma OneRepositoryBefore(names: seq<string>, replies: seq<Result<seq<ImageDetail>>>, digestOf: string -> string)
    requires |names| == |replies| > 0 && OneRepository(names, replies, digestOf)
    ensures OneRepository(names[..|names| - 1], replies[..|names| - 1], digestOf)
  {
  }

  /** Where all replies describe one repository, what was found is listed, digest included. */
  lemma LatestInputIsListed(names: seq<string>, replies: seq<Result<seq<ImageDetail>>>, k: nat, p: string,
                            digestOf: string -> string)
    requires |names| == |replies| && k < |names| && LookupAll(names, replies).Value?
    requires AsksForLatest(names[k], p) && OneRepository(names, replies, digestOf)
    ensures replies[k].Ok?
    ensures exists v :: IsLatestVersion(replies[k].value, p, v) && v in FirstOfEachName(LookupAll(names, replies).value)
  {
    hide Lookup, LookupAll, FirstOfEachName, IsLatestVersion, AsksForLatest, OneRepository;
    var all := LookupAll(names, replies).value;
    LatestInputIsAnswered(names, replies, k, p);
    var v :| IsLatestVersion(replies[k].value, p, v) && v in all && HasName(FirstOfEachName(all), v.name);
    AllTell(names, replies, digestOf);
    NameListedIsListed(all, v, digestOf);
  }

  lemma NameListedIsListed(all: seq<SourceVersion>, v: SourceVersion, digestOf: string -> string)
    requires Tells(all, digestOf) && v in all
    ensures v in FirstOfEachName(all)
  {
    hide FirstOfEachName;
    var i := FirstWithName(all, v.name);
    assert all[i] in all && all[i] == v;
    ListedIffFirst(all, v);
  }

  lemma LookupOfLatest(name: string, p: string, reply: Result<seq<ImageDetail>>)
    requires AsksForLatest(name, p) && Lookup(name, reply).Value?
    ensures reply.Ok? && |Lookup(name, reply).value| == 1
    ensures IsLatestVersion(reply.value, p, Lookup(name, reply).value[0])
  {
    hide Latest, Filtered, BeforeLatest, IsLatestVersion;
    SuffixesNest(name);
    if name != "latest" {
      assert EndsWith(name, SUFFIX) by { assert name[|name| - 7..] == SUFFIX; }
      PrefixOfLatestTag(p);
    }
    LatestFound(reply.value, p);
  }

  lemma AnswersAreListed(names: seq<string>, replies: seq<Result<seq<ImageDetail>>>, k: nat, v: SourceVersion)
    requires |names| == |replies| && k < |names| && LookupAll(names, replies).Value?
    requires Lookup(names[k], replies[k]).Value? && v in Lookup(names[k], replies[k]).value
    ensures v in LookupAll(names, replies).value
    ensures HasName(FirstOfEachName(LookupAll(names, replies).value), v.name)
  {
    hide Lookup, LookupAll, FirstOfEachName;
    EveryVersionIsAnswered(names, replies, k);
    NamesAreDistinct(LookupAll(names, replies).value);
    assert v in LookupAll(names[..k], replies[..k]).value + Lookup(names[k], replies[k]).value;
  }

  lemma LatestFound(details: seq<ImageDetail>, version: string)
    requires Latest(Filtered(details, version)).Value?
    ensures IsLatestVersion(details, version, Latest(Filtered(details, version)).value)
  {
    hide Latest, Filtered, IsLatestTagged;
    LatestSelection(details, version);
  }
}
