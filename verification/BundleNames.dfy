/** Bundle names: how they are generated (generatebundlefile/input.go), read
    (api/v1alpha1/packagebundle.go) and admitted as active bundle
    (pkg/webhook/packagebundlecontroller_webhook.go). */
module BundleNames {
  import opened Wrappers
  import opened Strings
  import opened Bundles

  // ------------------------------------------------------------------ numbers

  predicate IsDigit(c: char) { '0' <= c <= '9' }

  function DigitValue(c: char): nat
    requires IsDigit(c)
  {
    c as int - '0' as int
  }

  predicate AllDigits(s: string) { forall i :: 0 <= i < |s| ==> IsDigit(s[i]) }

  function ValueOf(s: string): nat
    requires AllDigits(s)
  {
    if s == "" then 0 else ValueOf(s[..|s| - 1]) * 10 + DigitValue(s[|s| - 1])
  }

  const MAX_INT := 0x7FFF_FFFF_FFFF_FFFF

  /** strconv.Atoi on a 64-bit platform. */
  function Atoi(s: string): Option<int> {
    var negative := s != "" && s[0] == '-';
    var body := if s != "" && s[0] in {'-', '+'} then s[1..] else s;
    if body == "" || !AllDigits(body) then None
    else
      var value: int := if negative then 0 - ValueOf(body) else ValueOf(body);
      if -MAX_INT - 1 <= value <= MAX_INT then Some(value) else None
  }

  /** Decimal notation without leading zeros. */
  function Decimal(n: nat): (s: string)
    ensures s != "" && AllDigits(s)
  {
    var last := ('0' as int + n % 10) as char;
    if n < 10 then [last] else Decimal(n / 10) + [last]
  }

  /** fmt.Sprint of an int. */
  function Sprint(i: int): string {
    if i < 0 then "-" + Decimal(-i) else Decimal(i)
  }

  lemma {:induction false} DecimalReadsBack(n: nat)
    ensures ValueOf(Decimal(n)) == n
  {
    if n >= 10 {
      DecimalReadsBack(n / 10);
      assert Decimal(n)[..|Decimal(n)| - 1] == Decimal(n / 10);
    } else {
      assert Decimal(n)[..0] == "";
    }
  }

  lemma AtoiOfDigits(s: string)
    requires s != "" && AllDigits(s) && ValueOf(s) <= MAX_INT
    ensures Atoi(s) == Some(ValueOf(s))
  {
    assert IsDigit(s[0]);
  }

  lemma DigitsAreFree(s: string)
    requires AllDigits(s)
    ensures Free(s, '-') && Free(s, '.')
  {
  }

  /** A number with leading zeros up to a width. */
  function Padded(n: nat, width: nat): (s: string)
    ensures s != "" && AllDigits(s) && |s| >= width
  {
    Zeros(width - |Decimal(n)|) + Decimal(n)
  }

  function Zeros(count: int): (s: string)
    ensures AllDigits(s) && |s| == if count <= 0 then 0 else count
  {
    if count <= 0 then "" else "0" + Zeros(count - 1)
  }

  lemma {:induction false} LeadingZerosDoNotCount(z: int, s: string)
    requires AllDigits(s)
    ensures AllDigits(Zeros(z) + s) && ValueOf(Zeros(z) + s) == ValueOf(s)
    decreases |s|, z
  {
    var t := Zeros(z) + s;
    if s == "" {
      assert t == Zeros(z);
      if z > 0 { ZerosAreZero(z); }
    } else {
      LeadingZerosDoNotCount(z, s[..|s| - 1]);
      assert t[..|t| - 1] == Zeros(z) + s[..|s| - 1];
    }
  }

  lemma {:induction false} ZerosAreZero(z: int)
    ensures ValueOf(Zeros(z)) == 0
  {
    if z > 0 {
      ZerosAreZero(z - 1);
      ZerosFromTheRight(z);
      assert Zeros(z)[..|Zeros(z)| - 1] == Zeros(z - 1);
    }
  }

  lemma {:induction false} ZerosFromTheRight(z: int)
    requires z > 0
    ensures Zeros(z) == Zeros(z - 1) + "0"
  {
    if z > 1 { ZerosFromTheRight(z - 1); }
  }

  // ------------------------------------------------------------------ reading

  function TrimV(s: string): string {
    if "v" <= s then s[1..] else s
  }

  /** getMajorMinorBuild: the first three dash-separated parts, the first without its v. */
  function MajorMinorBuild(name: string): Option<(int, int, int)> {
    var s := Split(name, '-') + ["", "", ""];
    match Atoi(TrimV(s[0]))
    case None => None
    case Some(major) =>
      match Atoi(s[1])
      case None => None
      case Some(minor) =>
        match Atoi(s[2])
        case None => None
        case Some(build) => Some((major, minor, build))
  }

  /** What the API server of a cluster says about itself. */
  datatype Info = Info(major: string, minor: string)

  function KubeVersionMatches(name: string, info: Info): Option<bool> {
    match MajorMinorBuild(name)
    case None => None
    case Some((major, minor, _)) => Some(Sprint(major) == info.major && Sprint(minor) == info.minor)
  }

  // --------------------------------------------------------------- generating

  datatype Date = Date(year: nat, month: nat, day: nat)

  function DateText(d: Date): string {
    Padded(d.year, 4) + "-" + Padded(d.month, 2) + "-" + Padded(d.day, 2)
  }

  /** The name NewBundleFromInput builds; None is the index panic on a version without a dot. */
  function GeneratedName(kubernetesVersion: string, date: Date, epoch: nat): (name: Option<string>)
    ensures name.Some? ==> "v1-" <= name.value
  {
    var version := Split(kubernetesVersion, '.');
    if |version| < 2 then None
    else Some("v1-" + version[1] + "-" + DateText(date) + "-" + Decimal(epoch))
  }

  lemma SplitOfPiece(a: string, rest: string)
    requires AllDigits(a) || a == "v1"
    ensures Split(a + "-" + rest, '-') == [a] + Split(rest, '-')
  {
    hide Split;
    assert Free(a, '-');
    SplitOfFree(a, '-');
    SplitOfConcat(a, rest, '-');
  }

  lemma SplitOfDate(d: Date, rest: string)
    ensures Split(DateText(d) + "-" + rest, '-')
         == [Padded(d.year, 4), Padded(d.month, 2), Padded(d.day, 2)] + Split(rest, '-')
  {
    hide Split, Padded;
    var y, m, dd := Padded(d.year, 4), Padded(d.month, 2), Padded(d.day, 2);
    assert DateText(d) + "-" + rest == y + "-" + (m + "-" + (dd + "-" + rest));
    SplitOfPiece(y, m + "-" + (dd + "-" + rest));
    SplitOfPiece(m, dd + "-" + rest);
    SplitOfPiece(dd, rest);
  }

  lemma SplitOfName(minor: string, d: Date, epoch: nat)
    requires AllDigits(minor)
    ensures Split("v1-" + minor + "-" + DateText(d) + "-" + Decimal(epoch), '-')
         == ["v1", minor, Padded(d.year, 4), Padded(d.month, 2), Padded(d.day, 2), Decimal(epoch)]
  {
    hide Padded, Decimal, Split, DateText;
    var date, e := DateText(d), Decimal(epoch);
    assert "v1-" + minor + "-" + date + "-" + e == "v1" + "-" + (minor + "-" + (date + "-" + e));
    SplitOfPiece("v1", minor + "-" + (date + "-" + e));
    SplitOfPiece(minor, date + "-" + e);
    SplitOfDate(d, e);
    DigitsAreFree(e);
    SplitOfFree(e, '-');
  }

  /** Round trip: the name generated for Kubernetes x.minor reads back as (1, minor, year). */
  lemma GeneratedNameReadsBack(before: string, minor: nat, after: seq<string>, d: Date, epoch: nat)
    requires Free(before, '.') && AllFree(after, '.') && minor <= MAX_INT && d.year <= MAX_INT
    ensures var version := Join([before, Decimal(minor)] + after, '.');
            && GeneratedName(version, d, epoch).Some?
            && MajorMinorBuild(GeneratedName(version, d, epoch).value) == Some((1, minor, d.year))
  {
    hide Decimal, Padded, Split, Join;
    DigitsAreFree(Decimal(minor));
    SplitOfJoin([before, Decimal(minor)] + after, '.');
    SplitOfName(Decimal(minor), d, epoch);
    DecimalReadsBack(minor);
    AtoiOfDigits(Decimal(minor));
    PaddedReadsBack(d.year, 4);
    AtoiOfDigits(Padded(d.year, 4));
    assert Atoi("1") == Some(1) by { assert ValueOf("1") == 1 by { assert "1"[..0] == ""; } }
    assert TrimV("v1") == "1";
  }

  /** The name holds the minor version, the date and the epoch: its six parts read back as numbers. */
  lemma GeneratedNameHasAllParts(before: string, minor: nat, after: seq<string>, d: Date, epoch: nat)
    requires Free(before, '.') && AllFree(after, '.')
    ensures var name := GeneratedName(Join([before, Decimal(minor)] + after, '.'), d, epoch);
            && name.Some?
            && var parts := Split(name.value, '-');
            && |parts| == 6 && parts[0] == "v1" && (forall i :: 1 <= i < 6 ==> AllDigits(parts[i]))
            && ValueOf(parts[1]) == minor && ValueOf(parts[2]) == d.year && ValueOf(parts[3]) == d.month
            && ValueOf(parts[4]) == d.day && ValueOf(parts[5]) == epoch
            && |parts[2]| >= 4 && |parts[3]| >= 2 && |parts[4]| >= 2
  {
    hide Decimal, Padded, Split, Join, DateText;
    DigitsAreFree(Decimal(minor));
    SplitOfJoin([before, Decimal(minor)] + after, '.');
    SplitOfName(Decimal(minor), d, epoch);
    DecimalReadsBack(minor);
    DecimalReadsBack(epoch);
    PaddedReadsBack(d.year, 4);
    PaddedReadsBack(d.month, 2);
    PaddedReadsBack(d.day, 2);
  }

  /** So different versions, dates or epochs give different names. */
  lemma GeneratedNameIsInjective(minor: nat, d: Date, epoch: nat, minor': nat, d': Date, epoch': nat)
    requires GeneratedName(Join(["1", Decimal(minor)], '.'), d, epoch) ==
             GeneratedName(Join(["1", Decimal(minor')], '.'), d', epoch')
    ensures minor == minor' && d == d' && epoch == epoch'
  {
    hide Decimal, Split, Join, GeneratedName;
    assert ["1", Decimal(minor)] + [] == ["1", Decimal(minor)];
    assert ["1", Decimal(minor')] + [] == ["1", Decimal(minor')];
    GeneratedNameHasAllParts("1", minor, [], d, epoch);
    GeneratedNameHasAllParts("1", minor', [], d', epoch');
  }

  /** Any name of a major, a minor and a build number, with or without more behind them, reads back. */
  lemma NameReadsBack(major: nat, minor: nat, build: nat, more: string)
    requires major <= MAX_INT && minor <= MAX_INT && build <= MAX_INT
    ensures MajorMinorBuild("v" + Decimal(major) + "-" + Decimal(minor) + "-" + Decimal(build) + "-" + more)
         == Some((major, minor, build))
    ensures MajorMinorBuild(Decimal(major) + "-" + Decimal(minor) + "-" + Decimal(build) + "-" + more)
         == Some((major, minor, build))
  {
    hide Decimal, Split, Atoi;
    var a, b, c := Decimal(major), Decimal(minor), Decimal(build);
    ReadsAsNumber(major);
    ReadsAsNumber(minor);
    ReadsAsNumber(build);
    assert IsDigit(a[0]) && TrimV(a) == a && TrimV("v" + a) == a;
    SplitOfThree("v" + a, b, c, more);
    SplitOfThree(a, b, c, more);
  }

  lemma ReadsAsNumber(n: nat)
    requires n <= MAX_INT
    ensures Atoi(Decimal(n)) == Some(n)
  {
    DecimalReadsBack(n);
    AtoiOfDigits(Decimal(n));
  }

  lemma SplitOfThree(a: string, b: string, c: string, more: string)
    requires AllDigits(b) && AllDigits(c) && Free(a, '-')
    ensures Split(a + "-" + b + "-" + c + "-" + more, '-') == [a, b, c] + Split(more, '-')
  {
    hide Split;
    assert a + "-" + b + "-" + c + "-" + more == a + "-" + (b + "-" + (c + "-" + more));
    SplitOfFree(a, '-');
    SplitOfConcat(a, b + "-" + (c + "-" + more), '-');
    SplitOfPiece(b, c + "-" + more);
    SplitOfPiece(c, more);
  }

  lemma PaddedReadsBack(n: nat, width: nat)
    ensures ValueOf(Padded(n, width)) == n
  {
    DecimalReadsBack(n);
    LeadingZerosDoNotCount(width - |Decimal(n)|, Decimal(n));
  }

  /** Such a name matches exactly the clusters of version 1.minor. */
  lemma GeneratedNameMatches(before: string, minor: nat, after: seq<string>, d: Date, epoch: nat, info: Info)
    requires Free(before, '.') && AllFree(after, '.') && minor <= MAX_INT && d.year <= MAX_INT
    ensures var name := GeneratedName(Join([before, Decimal(minor)] + after, '.'), d, epoch);
            && name.Some?
            && KubeVersionMatches(name.value, info) == Some(info == Info("1", Decimal(minor)))
  {
    hide Decimal, Padded, Split, Join, GeneratedName, MajorMinorBuild;
    GeneratedNameReadsBack(before, minor, after, d, epoch);
    SprintOne();
  }

  lemma SprintOne()
    ensures Sprint(1) == "1"
  {
  }

  // ---------------------------------------------------------------- admission

  datatype Admission = Allowed | Denied | Errored

  /** The decision of the active bundle webhook. */
  function Admit(active: string, bundles: seq<string>, info: Result<Info>): Admission {
    if active == "" then Allowed
    else if active !in bundles then Denied
    else if info.Err? then Errored
    else
      match KubeVersionMatches(active, info.value)
      case None => Errored
      case Some(matches) => if matches then Allowed else Denied
  }

  /** A generated name becomes the active bundle exactly on clusters of its version that hold the bundle. */
  lemma GeneratedNameIsAdmitted(before: string, minor: nat, after: seq<string>, d: Date, epoch: nat,
                                bundles: seq<string>, info: Result<Info>)
    requires Free(before, '.') && AllFree(after, '.') && minor <= MAX_INT && d.year <= MAX_INT
    ensures var name := GeneratedName(Join([before, Decimal(minor)] + after, '.'), d, epoch);
            && name.Some?
            && (Admit(name.value, bundles, info) == Allowed <==>
                name.value in bundles && info == Ok(Info("1", Decimal(minor))))
            && (Admit(name.value, bundles, info) == Errored <==> name.value in bundles && info.Err?)
  {
    hide Decimal, Padded, Split, Join, GeneratedName, KubeVersionMatches, MajorMinorBuild;
    if info.Ok? { GeneratedNameMatches(before, minor, after, d, epoch, info.value); }
    GeneratedNameReadsBack(before, minor, after, d, epoch);
  }

  /** Clearing the active bundle is always admitted; naming one that is not stored never is. */
  lemma AdmissionOfOthers(active: string, bundles: seq<string>, info: Result<Info>)
    ensures active == "" ==> Admit(active, bundles, info) == Allowed
    ensures active != "" && active !in bundles ==> Admit(active, bundles, info) == Denied
  {
  }

  /** The search loop and the decision, as coded. */
  method HandleInner(active: string, bundles: seq<PackageBundle>, info: Result<Info>) returns (a: Admission)
    ensures a == Admit(active, seq(|bundles|, i requires 0 <= i < |bundles| => bundles[i].name), info)
  {
    ghost var names := seq(|bundles|, i requires 0 <= i < |bundles| => bundles[i].name);
    if active == "" { return Allowed; }
    var found := false;
    var theBundle := PackageBundle("", []);
    for i := 0 to |bundles|
      invariant !found && forall k :: 0 <= k < i ==> bundles[k].name != active
    {
      if bundles[i].name == active {
        theBundle := bundles[i];
        found := true;
        assert names[i] == active;
        break;
      }
    }
    if !found { return Denied; }
    if info.Err? { return Errored; }
    var matches := KubeVersionMatches(theBundle.name, info.value);
    if matches.None? { return Errored; }
    return if matches.value then Allowed else Denied;
  }
}
