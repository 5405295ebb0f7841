/** Go's string splitting and joining on a one-character separator. */
module Strings {

  /** strings.Split: the pieces between separators, at least one. */
  function Split(s: string, sep: char): (r: seq<string>)
    ensures |r| >= 1
  {
    if s == "" then [""]
    else
      var rest := Split(s[1..], sep);
      if s[0] == sep then [""] + rest else [[s[0]] + rest[0]] + rest[1..]
  }

  /** strings.Join. */
  function Join(parts: seq<string>, sep: char): string {
    if parts == [] then ""
    else if |parts| == 1 then parts[0]
    else parts[0] + [sep] + Join(parts[1..], sep)
  }

  ghost predicate Free(s: string, sep: char) { sep !in s }

  ghost predicate AllFree(parts: seq<string>, sep: char) {
    forall p :: p in parts ==> Free(p, sep)
  }

  lemma {:induction false} SplitIsFree(s: string, sep: char)
    ensures AllFree(Split(s, sep), sep)
  {
    if s != "" {
      SplitIsFree(s[1..], sep);
      var rest := Split(s[1..], sep);
      assert Free(rest[0], sep);
      forall p | p in Split(s, sep) ensures Free(p, sep) {
        assert p == "" || p == [s[0]] + rest[0] || p in rest;
      }
    }
  }

  /** Joining the pieces of a text gives the text back. */
  lemma {:induction false} JoinOfSplit(s: string, sep: char)
    ensures Join(Split(s, sep), sep) == s
  {
    if s != "" {
      JoinOfSplit(s[1..], sep);
      var rest := Split(s[1..], sep);
      if s[0] == sep {
        assert ([""] + rest)[1..] == rest;
      } else if |rest| > 1 {
        assert ([[s[0]] + rest[0]] + rest[1..])[1..] == rest[1..];
      }
    }
  }

  lemma {:induction false} SplitOfFree(s: string, sep: char)
    requires Free(s, sep)
    ensures Split(s, sep) == [s]
  {
    if s != "" {
      assert Free(s[1..], sep);
      SplitOfFree(s[1..], sep);
      assert [s[0]] + s[1..] == s;
    }
  }

  /** Splitting at a separator in the middle. */
  lemma {:induction false} SplitOfConcat(a: string, b: string, sep: char)
    ensures Split(a + [sep] + b, sep) == Split(a, sep) + Split(b, sep)
  {
    var s := a + [sep] + b;
    if a == "" {
      assert s[1..] == b;
    } else {
      assert s[1..] == a[1..] + [sep] + b;
      SplitOfConcat(a[1..], b, sep);
    }
  }

  /** Splitting what was joined from pieces without separators gives the pieces back. */
  lemma {:induction false} SplitOfJoin(parts: seq<string>, sep: char)
    requires parts != [] && AllFree(parts, sep)
    ensures Split(Join(parts, sep), sep) == parts
  {
    SplitOfFree(parts[0], sep);
    if |parts| > 1 {
      SplitOfJoin(parts[1..], sep);
      SplitOfConcat(parts[0], Join(parts[1..], sep), sep);
    }
  }

  /** The names of a set in some order, each once: all that a listing, or iterating over a Go map, promises. */
  ghost predicate Enumerates(order: seq<string>, names: set<string>) {
    && (forall n :: n in order <==> n in names)
    && forall i, j :: 0 <= i < j < |order| ==> order[i] != order[j]
  }

  predicate EndsWith(s: string, suffix: string) {
    |suffix| <= |s| && s[|s| - |suffix|..] == suffix
  }

  predicate Contains(s: string, part: string) {
    exists i :: 0 <= i <= |s| && part <= s[i..]
  }

  lemma ContainsAnywhere(a: string, b: string, c: string, part: string)
    requires Contains(a, part) || Contains(b, part) || Contains(c, part)
    ensures Contains(a + b + c, part)
  {
    var t := a + b + c;
    if Contains(a, part) {
      var i :| 0 <= i <= |a| && part <= a[i..];
      assert t[i..] == a[i..] + (b + c);
    } else if Contains(b, part) {
      var i :| 0 <= i <= |b| && part <= b[i..];
      assert t[|a| + i..] == b[i..] + c;
    } else {
      var i :| 0 <= i <= |c| && part <= c[i..];
      assert t[|a| + |b| + i..] == c[i..];
    }
  }
}
