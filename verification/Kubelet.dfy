/** In-place rewriting of the kubelet's extra arguments
    (credentialproviderpackage/pkg/configurator/linux/linux.go). */
module Kubelet {
  import opened Strings

  const VARIABLE := "KUBELET_EXTRA_ARGS"
  const CONFIG_FLAG := "image-credential-provider-config"
  const BINARY_FLAG := "image-credential-provider-bin-dir"
  const CONFIG_FILE := "credential-provider-config.yaml"
  const BINARY_DIRECTORY := "/eksa-packages/"

  /** The outcome of the two helper calls, and the directory the configuration is written to. */
  datatype Helpers = Helpers(configWritten: bool, binariesCopied: bool, basePath: string)

  /** A directory is one line of text. */
  ghost predicate Proper(h: Helpers) { Free(h.basePath, '\n') }

  function ConfigArgument(h: Helpers): string {
    if h.configWritten then " --" + CONFIG_FLAG + "=" + h.basePath + CONFIG_FILE else ""
  }

  function BinaryArgument(h: Helpers): string {
    if h.binariesCopied then " --" + BINARY_FLAG + "=" + BINARY_DIRECTORY else ""
  }

  /** A flag the line already has, possibly for a custom configuration, is not added again. */
  function Missing(line: string, flag: string, argument: string): string {
    if Contains(line, flag) then "" else argument
  }

  /** The arguments to append to a line. */
  function ExtraArguments(line: string, h: Helpers): string {
    Missing(line, CONFIG_FLAG, ConfigArgument(h)) + Missing(line, BINARY_FLAG, BinaryArgument(h))
  }

  predicate IsVariable(line: string) { VARIABLE <= line }

  function RewriteLine(line: string, h: Helpers): string {
    if IsVariable(line) && ExtraArguments(line, h) != "" then line + ExtraArguments(line, h) + "\n" else line
  }

  function Appended(lines: seq<string>, h: Helpers): seq<string> {
    if exists l :: l in lines && IsVariable(l) then []
    else [VARIABLE + "=" + ExtraArguments(VARIABLE + "=", h)]
  }

  /** The text of the file after updateConfigFile. */
  function Rewrite(text: string, h: Helpers): string {
    var lines := Split(text, '\n');
    Join(Rewritten(lines, h) + Appended(lines, h), '\n')
  }

  // -------------------------------------------------- the rewriting, by lines

  function OutputLine(line: string, h: Helpers): seq<string> {
    if IsVariable(line) && ExtraArguments(line, h) != "" then [line + ExtraArguments(line, h), ""] else [line]
  }

  function OutputLines(lines: seq<string>, h: Helpers): seq<string> {
    if lines == [] then [] else OutputLine(lines[0], h) + OutputLines(lines[1..], h)
  }

  lemma JoinOfNewline(line: string, rest: seq<string>)
    ensures Join([line + "\n"] + rest, '\n') == Join([line, ""] + rest, '\n')
  {
    var tail := [""] + rest;
    assert ([line, ""] + rest)[1..] == tail;
    if rest == [] {
      assert [line + "\n"] + rest == [line + "\n"];
      assert Join(tail, '\n') == "";
      assert line + ['\n'] + "" == line + "\n";
    } else {
      assert ([line + "\n"] + rest)[1..] == rest && tail[1..] == rest;
      assert Join(tail, '\n') == "" + ['\n'] + Join(rest, '\n');
      assert (line + "\n") + ['\n'] + Join(rest, '\n') == line + ['\n'] + ("" + ['\n'] + Join(rest, '\n'));
    }
  }

  function Rewritten(lines: seq<string>, h: Helpers): (r: seq<string>)
    ensures |r| == |lines| && forall i :: 0 <= i < |lines| ==> r[i] == RewriteLine(lines[i], h)
  {
    seq(|lines|, i requires 0 <= i < |lines| => RewriteLine(lines[i], h))
  }

  /** The rewritten slice, joined, is its lines joined. */
  lemma {:induction false} JoinOfRewritten(lines: seq<string>, h: Helpers, rest: seq<string>)
    ensures Join(Rewritten(lines, h) + rest, '\n') == Join(OutputLines(lines, h) + rest, '\n')
  {
    hide RewriteLine, OutputLine, Rewritten, Join;
    if lines == [] {
      assert Rewritten(lines, h) + rest == rest == OutputLines(lines, h) + rest;
    } else {
      var raw, out := Rewritten(lines[1..], h) + rest, OutputLines(lines[1..], h) + rest;
      JoinOfRewritten(lines[1..], h, rest);
      assert Rewritten(lines, h) + rest == [RewriteLine(lines[0], h)] + raw;
      assert OutputLines(lines, h) + rest == OutputLine(lines[0], h) + out;
      EmptyTogether(lines[1..], h, rest);
      JoinOfCons(RewriteLine(lines[0], h), raw, out);
      JoinOfLine(lines[0], h, out);
    }
  }

  lemma JoinOfLine(line: string, h: Helpers, rest: seq<string>)
    ensures Join([RewriteLine(line, h)] + rest, '\n') == Join(OutputLine(line, h) + rest, '\n')
  {
    hide ExtraArguments, IsVariable, Join;
    if IsVariable(line) && ExtraArguments(line, h) != "" {
      JoinOfNewline(line + ExtraArguments(line, h), rest);
    }
  }

  lemma EmptyTogether(lines: seq<string>, h: Helpers, rest: seq<string>)
    ensures Rewritten(lines, h) + rest == [] <==> OutputLines(lines, h) + rest == []
  {
    if lines != [] {
      assert (OutputLines(lines, h) + rest)[0] == OutputLine(lines[0], h)[0];
    }
  }

  lemma JoinOfCons(line: string, xs: seq<string>, ys: seq<string>)
    requires Join(xs, '\n') == Join(ys, '\n') && (xs == [] <==> ys == [])
    ensures Join([line] + xs, '\n') == Join([line] + ys, '\n')
  {
    assert ([line] + xs)[1..] == xs && ([line] + ys)[1..] == ys;
  }

  // -------------------------------------------------------------- idempotence

  lemma FlagsAreComplete(line: string, f: string, g: string, x: string, y: string)
    requires x == "" || Contains(x, f)
    requires y == "" || Contains(y, g)
    ensures var full := line + Missing(line, f, x) + Missing(line, g, y);
            Missing(full, f, x) == "" && Missing(full, g, y) == ""
  {
    if x != "" { ContainsAnywhere(line, Missing(line, f, x), Missing(line, g, y), f); }
    if y != "" { ContainsAnywhere(line, Missing(line, f, x), Missing(line, g, y), g); }
  }

  lemma ArgumentHasFlag(flag: string, value: string)
    ensures Contains(" --" + flag + "=" + value, flag)
  {
    var s := " --" + flag + "=" + value;
    assert s[3..] == flag + "=" + value;
    assert flag <= s[3..];
  }

  lemma ArgumentsHaveFlags(h: Helpers)
    ensures ConfigArgument(h) == "" || Contains(ConfigArgument(h), CONFIG_FLAG)
    ensures BinaryArgument(h) == "" || Contains(BinaryArgument(h), BINARY_FLAG)
  {
    ArgumentHasFlag(CONFIG_FLAG, h.basePath + CONFIG_FILE);
    ArgumentHasFlag(BINARY_FLAG, BINARY_DIRECTORY);
    assert ConfigArgument(h) == "" || ConfigArgument(h) == " --" + CONFIG_FLAG + "=" + (h.basePath + CONFIG_FILE);
  }

  /** A line with its arguments needs no more. */
  lemma ArgumentsAreComplete(line: string, h: Helpers)
    ensures ExtraArguments(line + ExtraArguments(line, h), h) == ""
  {
    hide ConfigArgument, BinaryArgument, Contains;
    ArgumentsHaveFlags(h);
    FlagsAreComplete(line, CONFIG_FLAG, BINARY_FLAG, ConfigArgument(h), BinaryArgument(h));
    var x, y := Missing(line, CONFIG_FLAG, ConfigArgument(h)), Missing(line, BINARY_FLAG, BinaryArgument(h));
    assert line + x + y == line + (x + y);
  }

  function FinalLines(lines: seq<string>, h: Helpers): seq<string> {
    OutputLines(lines, h) + Appended(lines, h)
  }

  lemma ArgumentsAreFree(line: string, h: Helpers)
    requires Proper(h)
    ensures Free(ExtraArguments(line, h), '\n')
  {
    assert Free(ConfigArgument(h), '\n') && Free(BinaryArgument(h), '\n');
  }

  lemma {:induction false} OutputIsFree(lines: seq<string>, h: Helpers)
    requires AllFree(lines, '\n') && Proper(h)
    ensures AllFree(OutputLines(lines, h), '\n')
  {
    hide ExtraArguments, IsVariable;
    if lines != [] {
      assert Free(lines[0], '\n');
      ArgumentsAreFree(lines[0], h);
      OutputIsFree(lines[1..], h);
      assert Free("", '\n');
    }
  }

  /** Every variable line of the output is complete. */
  lemma {:induction false} OutputIsComplete(lines: seq<string>, h: Helpers, l: string)
    requires l in OutputLines(lines, h) && IsVariable(l)
    ensures ExtraArguments(l, h) == ""
  {
    hide ExtraArguments;
    if l in OutputLine(lines[0], h) {
      ArgumentsAreComplete(lines[0], h);
    } else {
      OutputIsComplete(lines[1..], h, l);
    }
  }

  lemma {:induction false} VariablesStay(lines: seq<string>, h: Helpers, l: string)
    requires l in lines && IsVariable(l)
    ensures exists m :: m in OutputLines(lines, h) && IsVariable(m)
  {
    hide ExtraArguments;
    if l == lines[0] {
      var m := OutputLine(l, h)[0];
      assert m in OutputLines(lines, h) && IsVariable(m);
    } else {
      VariablesStay(lines[1..], h, l);
      var m :| m in OutputLines(lines[1..], h) && IsVariable(m);
      assert m in OutputLines(lines, h);
    }
  }

  /** Nothing left to do: a variable line exists, and each has its arguments. */
  ghost predicate Complete(lines: seq<string>, h: Helpers) {
    && (forall l :: l in lines && IsVariable(l) ==> ExtraArguments(l, h) == "")
    && exists l :: l in lines && IsVariable(l)
  }

  lemma FinalIsComplete(lines: seq<string>, h: Helpers)
    ensures Complete(FinalLines(lines, h), h)
  {
    hide ExtraArguments;
    forall l | l in FinalLines(lines, h) && IsVariable(l) ensures ExtraArguments(l, h) == "" {
      if l in OutputLines(lines, h) {
        OutputIsComplete(lines, h, l);
      } else {
        ArgumentsAreComplete(VARIABLE + "=", h);
      }
    }
    if exists l :: l in lines && IsVariable(l) {
      var l :| l in lines && IsVariable(l);
      VariablesStay(lines, h, l);
      var m :| m in OutputLines(lines, h) && IsVariable(m);
      assert m in FinalLines(lines, h);
    } else {
      var m := Appended(lines, h)[0];
      assert m in FinalLines(lines, h) && IsVariable(m);
    }
  }

  lemma CompleteStays(lines: seq<string>, h: Helpers)
    requires lines != [] && AllFree(lines, '\n') && Complete(lines, h)
    ensures Rewrite(Join(lines, '\n'), h) == Join(lines, '\n')
  {
    hide ExtraArguments, IsVariable;
    SplitOfJoin(lines, '\n');
    forall i | 0 <= i < |lines| ensures RewriteLine(lines[i], h) == lines[i] {
      assert lines[i] in lines;
    }
    assert Rewritten(lines, h) == lines;
    assert lines + Appended(lines, h) == lines;
  }

  /** The lines of the rewritten file. */
  lemma LinesOfRewrite(text: string, h: Helpers)
    requires Proper(h)
    ensures var final := FinalLines(Split(text, '\n'), h);
            && final != [] && AllFree(final, '\n')
            && Rewrite(text, h) == Join(final, '\n') && Split(Rewrite(text, h), '\n') == final
  {
    hide ExtraArguments, IsVariable;
    var lines := Split(text, '\n');
    SplitIsFree(text, '\n');
    OutputIsFree(lines, h);
    ArgumentsAreFree(VARIABLE + "=", h);
    assert Free(VARIABLE + "=", '\n');
    assert OutputLines(lines, h) != [] by { assert OutputLine(lines[0], h) != []; }
    JoinOfRewritten(lines, h, Appended(lines, h));
    SplitOfJoin(FinalLines(lines, h), '\n');
  }

  /** Rewriting twice is rewriting once, for every text and every fixed outcome of the helpers. */
  lemma RewriteIsIdempotent(text: string, h: Helpers)
    requires Proper(h)
    ensures Rewrite(Rewrite(text, h), h) == Rewrite(text, h)
  {
    hide Rewrite, FinalLines, Complete;
    LinesOfRewrite(text, h);
    FinalIsComplete(Split(text, '\n'), h);
    CompleteStays(FinalLines(Split(text, '\n'), h), h);
  }

  /** A file is left alone exactly when it has a variable line and no such line lacks an argument. */
  lemma UnchangedIff(text: string, h: Helpers)
    requires Proper(h)
    ensures Rewrite(text, h) == text <==> Complete(Split(text, '\n'), h)
  {
    hide Rewrite, FinalLines, Complete, Split, Join;
    var lines := Split(text, '\n');
    LinesOfRewrite(text, h);
    FinalIsComplete(lines, h);
    if Complete(lines, h) {
      SplitIsFree(text, '\n');
      JoinOfSplit(text, '\n');
      CompleteStays(lines, h);
    }
  }

  /** When both helpers succeed, every variable line of the result carries both flags, and there is one. */
  lemma FlagsArePresent(text: string, h: Helpers)
    requires Proper(h) && h.configWritten && h.binariesCopied
    ensures var lines := Split(Rewrite(text, h), '\n');
            && (exists l :: l in lines && IsVariable(l))
            && forall l :: l in lines && IsVariable(l) ==> Contains(l, CONFIG_FLAG) && Contains(l, BINARY_FLAG)
  {
    hide Rewrite, FinalLines, Contains, IsVariable;
    LinesOfRewrite(text, h);
    FinalIsComplete(Split(text, '\n'), h);
    assert ConfigArgument(h)[0] == ' ' && BinaryArgument(h)[0] == ' ';
  }

  /** What a line gets, spelled out: each flag it lacks with its value, if the helper succeeded. */
  function Added(line: string, h: Helpers): string {
    (if h.configWritten && !Contains(line, "image-credential-provider-config")
     then " --" + "image-credential-provider-config" + "=" + h.basePath + "credential-provider-config.yaml" else "") +
    (if h.binariesCopied && !Contains(line, "image-credential-provider-bin-dir")
     then " --" + "image-credential-provider-bin-dir" + "=" + "/eksa-packages/" else "")
  }

  lemma ArgumentsAreAdded(line: string, h: Helpers)
    ensures ExtraArguments(line, h) == Added(line, h)
  {
    hide Contains;
  }

  /** Each KUBELET_EXTRA_ARGS line of the file becomes that line with what it lacks, followed by an empty
      line if it lacked anything; each other line stays as it is, and a file without such a line gets one
      at its end. */
  lemma LinesGetArguments(text: string, h: Helpers, line: string)
    requires Proper(h) && line in Split(text, '\n')
    ensures var lines := Split(Rewrite(text, h), '\n');
            if "KUBELET_EXTRA_ARGS" <= line then IsFollowed(lines, line + Added(line, h), Added(line, h) != "")
            else line in lines
    ensures var lines := Split(Rewrite(text, h), '\n');
            (forall l :: l in Split(text, '\n') ==> !("KUBELET_EXTRA_ARGS" <= l)) ==>
              lines[|lines| - 1] == "KUBELET_EXTRA_ARGS=" + Added("KUBELET_EXTRA_ARGS=", h)
  {
    hide Added, ExtraArguments, Split, Rewrite, Contains;
    LinesOfRewrite(text, h);
    ArgumentsAreAdded(line, h);
    ArgumentsAreAdded(VARIABLE + "=", h);
    assert VARIABLE + "=" == "KUBELET_EXTRA_ARGS=";
    var lines := Split(text, '\n');
    var k := OutputHas(lines, h, line);
    var out, args := OutputLines(lines, h), ExtraArguments(line, h);
    assert forall i :: 0 <= i < |out| ==> FinalLines(lines, h)[i] == out[i];
    if args == "" { assert line + args == line; }
  }

  /** The line is there, with an empty one behind it if it should be. */
  predicate IsFollowed(lines: seq<string>, line: string, followed: bool) {
    exists k :: 0 <= k < |lines| && lines[k] == line && (followed ==> k + 1 < |lines| && lines[k + 1] == "")
  }

  lemma {:induction false} OutputHas(lines: seq<string>, h: Helpers, line: string) returns (k: nat)
    requires line in lines
    ensures var out, args := OutputLines(lines, h), ExtraArguments(line, h);
            if IsVariable(line) && args != "" then k + 1 < |out| && out[k] == line + args && out[k + 1] == ""
            else k < |out| && out[k] == line
  {
    hide ExtraArguments, IsVariable;
    if line == lines[0] {
      k := 0;
    } else {
      k := OutputHas(lines[1..], h, line);
      k := k + |OutputLine(lines[0], h)|;
    }
  }

  /** The lines of xs occur in ys, in order, each as a prefix of a different line. */
  predicate Embeds(xs: seq<string>, ys: seq<string>)
    decreases |ys|
  {
    xs == [] || (ys != [] && ((xs[0] <= ys[0] && Embeds(xs[1..], ys[1..])) || Embeds(xs, ys[1..])))
  }

  lemma {:induction false} EmbedsInOutput(lines: seq<string>, h: Helpers, rest: seq<string>)
    ensures Embeds(lines, OutputLines(lines, h) + rest)
    decreases |lines|
  {
    hide ExtraArguments, IsVariable;
    if lines != [] {
      var out := OutputLines(lines, h) + rest;
      var tail := OutputLines(lines[1..], h) + rest;
      EmbedsInOutput(lines[1..], h, rest);
      assert lines[0] <= out[0];
      if |OutputLine(lines[0], h)| == 1 {
        assert out[1..] == tail;
      } else {
        assert out[1..] == [""] + tail && out[1..][1..] == tail;
        assert Embeds(lines[1..], out[1..]);
      }
    }
  }

  /** Every original line survives, in order, as the start of an output line. */
  lemma LinesSurvive(text: string, h: Helpers)
    requires Proper(h)
    ensures Embeds(Split(text, '\n'), Split(Rewrite(text, h), '\n'))
  {
    LinesOfRewrite(text, h);
    EmbedsInOutput(Split(text, '\n'), h, Appended(Split(text, '\n'), h));
  }

  // ----------------------------------------------------------- implementation

  method UpdateKubeletArguments(line: string, h: Helpers) returns (args: string)
    ensures args == ExtraArguments(line, h)
  {
    hide Contains, ConfigArgument, BinaryArgument;
    args := "";
    if !Contains(line, CONFIG_FLAG) { args := args + ConfigArgument(h); }
    if !Contains(line, BINARY_FLAG) { args := args + BinaryArgument(h); }
  }

  method UpdateConfigFile(file: string, h: Helpers) returns (out: string)
    ensures out == Rewrite(file, h)
  {
    hide ExtraArguments, IsVariable, Split, Join;
    var was := Split(file, '\n');
    var lines := new string[|was|](i requires 0 <= i < |was| => was[i]);
    var found := false;
    for i := 0 to lines.Length
      invariant forall k :: 0 <= k < i ==> lines[k] == RewriteLine(was[k], h)
      invariant forall k :: i <= k < lines.Length ==> lines[k] == was[k]
      invariant found <==> exists l :: l in was[..i] && IsVariable(l)
    {
      assert was[..i + 1] == was[..i] + [was[i]];
      var line := lines[i];
      if IsVariable(line) {
        found := true;
        var args := UpdateKubeletArguments(line, h);
        if args != "" { lines[i] := line + args + "\n"; }
      }
    }
    assert was[..lines.Length] == was;
    var result := lines[..];
    ghost var rewritten := Rewritten(was, h);
    assert result == rewritten;
    if !found {
      var line := VARIABLE + "=";
      var args := UpdateKubeletArguments(line, h);
      if args != "" { line := line + args; }
      assert line == VARIABLE + "=" + ExtraArguments(VARIABLE + "=", h);
      result := result + [line];
    }
    assert result == rewritten + Appended(was, h);
    out := Join(result, '\n');
  }
}
