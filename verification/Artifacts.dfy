/** Artifact URIs (pkg/registry/artifact.go): registry/repository:tag or registry/repository@digest. */
module Artifacts {
  import opened Wrappers
  import opened Strings

  datatype Artifact = Artifact(registry: string, repository: string, tag: string, digest: string)

  /** strings.SplitN(s, sep, 2): the text around the first separator, if there is one. */
  function Cut(s: string, sep: char): (r: Option<(string, string)>)
    ensures r.None? <==> Free(s, sep)
    ensures r.Some? ==> s == r.value.0 + [sep] + r.value.1 && Free(r.value.0, sep)
  {
    if s == "" then None
    else if s[0] == sep then Some(("", s[1..]))
    else
      match Cut(s[1..], sep)
      case None => None
      case Some((before, after)) => Some(([s[0]] + before, after))
  }

  lemma {:induction false} CutOfConcat(a: string, b: string, sep: char)
    requires Free(a, sep)
    ensures Cut(a + [sep] + b, sep) == Some((a, b))
  {
    var s := a + [sep] + b;
    if a == "" {
      assert s[1..] == b;
    } else {
      assert s[1..] == a[1..] + [sep] + b;
      CutOfConcat(a[1..], b, sep);
      assert [a[0]] + a[1..] == a;
    }
  }

  /** ParseArtifactFromURI, branch by branch. */
  method ParseArtifactFromURI(uri: string) returns (r: Result<Artifact>)
    ensures r == Parse(uri)
  {
    var elements := Cut(uri, '/');
    if elements.None? { return Err("registry not found"); }
    var (registry, rol) := elements.value;
    var tag, digest := "", "";
    elements := Cut(rol, '@');
    if elements.None? {
      elements := Cut(rol, ':');
      if elements.None? { return Err("tag or digest not found"); }
      tag := elements.value.1;
    } else {
      digest := elements.value.1;
    }
    return Ok(Artifact(registry, elements.value.0, tag, digest));
  }

  function Parse(uri: string): Result<Artifact> {
    match Cut(uri, '/')
    case None => Err("registry not found")
    case Some((registry, rest)) =>
      match Cut(rest, '@')
      case Some((repository, digest)) => Ok(Artifact(registry, repository, "", digest))
      case None =>
        match Cut(rest, ':')
        case Some((repository, tag)) => Ok(Artifact(registry, repository, tag, ""))
        case None => Err("tag or digest not found")
  }

  function Version(a: Artifact): string {
    if a.digest != "" then "@" + a.digest else ":" + a.tag
  }

  function VersionedImage(a: Artifact): string {
    a.registry + "/" + a.repository + Version(a)
  }

  /** A text is a URI exactly when, after its first slash, it has an at sign or a colon. */
  lemma ParsesIff(uri: string)
    ensures Parse(uri).Ok? <==>
            exists i :: 0 <= i < |uri| && uri[i] == '/' && Free(uri[..i], '/')
                        && !(Free(uri[i + 1..], '@') && Free(uri[i + 1..], ':'))
  {
    match Cut(uri, '/')
    case None => assert Free(uri, '/');
    case Some((registry, rest)) =>
      var n := |registry|;
      assert uri[..n] == registry && uri[n] == '/' && uri[n + 1..] == rest;
      assert forall i :: 0 <= i < |uri| && uri[i] == '/' && Free(uri[..i], '/') ==> i == n;
  }

  /** The rest of the text after the registry ends in a bare at sign: the digest is empty. */
  predicate EmptyDigest(uri: string) {
    match Cut(uri, '/')
    case None => false
    case Some((_, rest)) => Cut(rest, '@').Some? && Cut(rest, '@').value.1 == ""
  }

  /** Printing a parsed URI gives it back exactly when its digest part is not empty. */
  lemma PrintOfParse(uri: string)
    requires Parse(uri).Ok?
    ensures VersionedImage(Parse(uri).value) == uri <==> !EmptyDigest(uri)
  {
    hide Cut;
    var (registry, rest) := Cut(uri, '/').value;
    assert uri == registry + "/" + rest;
    var a := Parse(uri).value;
    if Cut(rest, '@').Some? {
      Glued(uri, a, '@', a.digest);
    } else {
      Glued(uri, a, ':', a.tag);
    }
  }

  /** A printed artifact is the registry, the repository, a separator and a text only for the separator it prints. */
  lemma Glued(uri: string, a: Artifact, sep: char, text: string)
    requires uri == a.registry + "/" + (a.repository + [sep] + text)
    requires (sep == '@' && text == a.digest && a.tag == "") || (sep == ':' && text == a.tag && a.digest == "")
    ensures VersionedImage(a) == uri <==> !(sep == '@' && text == "")
  {
    if sep == '@' && text == "" {
      var n := |a.registry| + 1 + |a.repository|;
      assert uri[n] == '@' && VersionedImage(a)[n] == ':';
    } else {
      assert VersionedImage(a) == a.registry + "/" + a.repository + ([sep] + text);
    }
  }

  /** The artifacts whose parts keep clear of the separators looked for before them. */
  ghost predicate Printable(a: Artifact) {
    && Free(a.registry, '/')
    && if a.digest != "" then a.tag == "" && Free(a.repository, '@')
       else Free(a.repository, '@') && Free(a.tag, '@') && Free(a.repository, ':')
  }

  /** Parsing a printed artifact gives it back exactly when it is printable. */
  lemma ParseOfPrint(a: Artifact)
    ensures Parse(VersionedImage(a)) == Ok(a) <==> Printable(a)
  {
    var uri := VersionedImage(a);
    var rest := a.repository + Version(a);
    assert uri == a.registry + "/" + rest;
    if Free(a.registry, '/') {
      CutOfConcat(a.registry, rest, '/');
      PartsOfRest(a, rest);
    }
  }

  lemma PartsOfRest(a: Artifact, rest: string)
    requires rest == a.repository + Version(a) && Free(a.registry, '/')
    requires Cut(VersionedImage(a), '/') == Some((a.registry, rest))
    ensures Parse(VersionedImage(a)) == Ok(a) <==> Printable(a)
  {
    hide Cut;
    if a.digest != "" {
      assert rest == a.repository + "@" + a.digest;
      if Free(a.repository, '@') { CutOfConcat(a.repository, a.digest, '@'); }
    } else {
      assert rest == a.repository + ":" + a.tag;
      if Free(a.repository, ':') { CutOfConcat(a.repository, a.tag, ':'); }
    }
  }

  /** What parsing returns is printable unless its digest was written empty, so such URIs and
      printable artifacts correspond one to one. */
  lemma ParsedIsPrintable(uri: string)
    requires Parse(uri).Ok? && !EmptyDigest(uri)
    ensures Printable(Parse(uri).value)
  {
    PrintOfParse(uri);
    ParseOfPrint(Parse(uri).value);
  }

  /** The two forms, written out. */
  lemma UriForms(registry: string, repository: string, version: string)
    requires Free(registry, '/') && Free(repository, '@')
    ensures Parse(registry + "/" + repository + "@" + version) == Ok(Artifact(registry, repository, "", version))
    ensures Free(repository, ':') && Free(version, '@') ==>
              Parse(registry + "/" + repository + ":" + version) == Ok(Artifact(registry, repository, version, ""))
  {
    hide Cut;
    assert registry + "/" + repository + "@" + version == registry + "/" + (repository + "@" + version);
    assert registry + "/" + repository + ":" + version == registry + "/" + (repository + ":" + version);
    CutOfConcat(registry, repository + "@" + version, '/');
    CutOfConcat(registry, repository + ":" + version, '/');
    CutOfConcat(repository, version, '@');
    if Free(repository, ':') && Free(version, '@') {
      CutOfConcat(repository, version, ':');
      assert Free(repository + ":" + version, '@');
    }
  }
}
