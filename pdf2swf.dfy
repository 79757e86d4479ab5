/** PDF2SWFConverterService: converts a PDF file into an SWF file by running the pdf2swf program of
    SWFTools through commons-exec, gated by an enabled flag. */
module Pdf2Swf {
  import opened Outcomes
  import Strings
  import Host

  type Bytes = seq<bv8>

  /** The characters commons-exec splits an unquoted argument string on. */
  const PARAMETER_SEPARATORS: set<char> := {' '}

  /** The argument tokens of the configured parameters: addArguments(null) adds none. */
  function ParameterTokens(parameters: Option<string>): (ts: seq<string>)
    ensures forall k :: 0 <= k < |ts| ==> Strings.IsToken(ts[k], PARAMETER_SEPARATORS)
  {
    if parameters.None? then []
    else
      Strings.SplitTokens(parameters.value, PARAMETER_SEPARATORS);
      Strings.Split(parameters.value, PARAMETER_SEPARATORS)
  }

  /** A string commons-exec rejects as an executable: every character is white space or a control
      character, so that trim() leaves it empty. */
  predicate Blank(s: string) {
    forall i :: 0 <= i < |s| ==> s[i] <= ' '
  }

  /** new CommandLine(executable): null or blank executables throw an IllegalArgumentException. */
  predicate ValidExecutable(executable: Option<string>) {
    executable.Some? && !Blank(executable.value)
  }

  /** getConvertCommandLine(inputFile, outputFile): the executable followed by the placeholders
      for the input, "-o" and the output, then the parameter tokens, with a substitution map
      binding the placeholders to the two files. */
  function ConvertCommandLine(executable: Option<string>, parameters: Option<string>, input: Option<Host.FileId>, output: Option<Host.FileId>): Result<Host.CommandLine> {
    if !ValidExecutable(executable) then Err(IllegalArgument)
    else Ok(Host.CommandLine(executable.value, ["${inFile}", "-o", "${outFile}"] + ParameterTokens(parameters), map["inFile" := input, "outFile" := output]))
  }

  predicate IsPlaceholder(t: string) {
    |t| >= 3 && t[..2] == "${" && t[|t| - 1] == '}'
  }

  lemma ExpandPlain(t: string, substitution: map<string, Option<Host.FileId>>)
    requires !IsPlaceholder(t)
    ensures Host.ExpandArgument(t, substitution) == t
  {
  }

  /** A placeholder bound to a file expands to that file's path. */
  lemma ExpandBound(name: string, substitution: map<string, Option<Host.FileId>>, f: Host.FileId)
    requires name in substitution && substitution[name] == Some(f)
    ensures Host.ExpandArgument("${" + name + "}", substitution) == Host.TempPath(f)
  {
    var arg := "${" + name + "}";
    assert arg[..2] == "${";
    assert arg[2..|arg| - 1] == name;
  }

  /** The command the operating system runs: the executable, the input's path, "-o", the output's
      path and the parameter tokens in order; the substitution map has exactly the two keys. */
  lemma ConvertArgv(executable: Option<string>, parameters: Option<string>, input: Host.FileId, output: Host.FileId)
    requires ValidExecutable(executable)
    requires forall k :: 0 <= k < |ParameterTokens(parameters)| ==> !IsPlaceholder(ParameterTokens(parameters)[k])
    ensures var cmd := ConvertCommandLine(executable, parameters, Some(input), Some(output));
      && cmd.Ok?
      && cmd.value.substitution.Keys == {"inFile", "outFile"}
      && Host.Argv(cmd.value) == [executable.value, Host.TempPath(input), "-o", Host.TempPath(output)] + ParameterTokens(parameters)
  {
    var ts := ParameterTokens(parameters);
    var cmd := ConvertCommandLine(executable, parameters, Some(input), Some(output)).value;
    var sub := cmd.substitution;
    var inPath, outPath := Host.TempPath(input), Host.TempPath(output);
    ExpandBound("inFile", sub, input);
    ExpandBound("outFile", sub, output);
    ExpandPlain("-o", sub);
    forall k | 0 <= k < |ts|
      ensures Host.ExpandArgument(ts[k], sub) == ts[k]
    {
      ExpandPlain(ts[k], sub);
    }
    ArgvOf(cmd, executable.value, inPath, outPath, ts);
  }

  /** The argv of a command whose arguments expand to the input path, "-o", the output path and
      then tokens that stay as they are. */
  lemma ArgvOf(cmd: Host.CommandLine, executable: string, inPath: string, outPath: string, ts: seq<string>)
    requires cmd.executable == executable && cmd.arguments == ["${inFile}", "-o", "${outFile}"] + ts
    requires Host.ExpandArgument("${" + "inFile" + "}", cmd.substitution) == inPath
    requires Host.ExpandArgument("-o", cmd.substitution) == "-o"
    requires Host.ExpandArgument("${" + "outFile" + "}", cmd.substitution) == outPath
    requires forall k :: 0 <= k < |ts| ==> Host.ExpandArgument(ts[k], cmd.substitution) == ts[k]
    ensures Host.Argv(cmd) == [executable, inPath, "-o", outPath] + ts
  {
    var argv := Host.Argv(cmd);
    var expected := [executable, inPath, "-o", outPath] + ts;
    assert "${inFile}" == "${" + "inFile" + "}";
    assert "${outFile}" == "${" + "outFile" + "}";
    assert |argv| == |expected|;
    forall j | 0 <= j < |argv|
      ensures argv[j] == expected[j]
    {
      if j >= 4 {
        assert cmd.arguments[j - 1] == ts[j - 4];
      }
    }
  }

  /** With a null input the placeholder is not substituted: pdf2swf receives the literal
      "${inFile}" as its input path. */
  lemma NullInputStaysLiteral(executable: Option<string>, parameters: Option<string>, output: Option<Host.FileId>)
    requires ValidExecutable(executable)
    ensures var cmd := ConvertCommandLine(executable, parameters, None, output);
      cmd.Ok? && Host.Argv(cmd.value)[1] == "${inFile}"
  {
    var cmd := ConvertCommandLine(executable, parameters, None, output).value;
    assert "${inFile}"[2..8] == "inFile";
    assert Host.Argv(cmd)[1] == Host.ExpandArgument(cmd.arguments[0], cmd.substitution);
  }

  /** The parameters pdf2swf is configured with split into six tokens in order. */
  lemma SampleParameters()
    ensures ParameterTokens(Some("-f -T 9 -t -s storeallcharacters")) == ["-f", "-T", "9", "-t", "-s", "storeallcharacters"]
  {
    var ts := ["-f", "-T", "9", "-t", "-s", "storeallcharacters"];
    var line := "-f -T 9 -t -s storeallcharacters";
    SampleJoin(ts);
    SampleTokens(ts);
    Strings.SplitJoin(ts, ' ', PARAMETER_SEPARATORS);
    assert ParameterTokens(Some(line)) == Strings.Split(line, PARAMETER_SEPARATORS);
  }

  lemma SampleJoin(ts: seq<string>)
    requires ts == ["-f", "-T", "9", "-t", "-s", "storeallcharacters"]
    ensures Strings.Join(ts, ' ') == "-f -T 9 -t -s storeallcharacters"
  {
    JoinSix("-f", "-T", "9", "-t", "-s", "storeallcharacters");
    assert "-f -T 9 -t -s storeallcharacters" == "-f" + [' '] + "-T" + [' '] + "9" + [' '] + "-t" + [' '] + "-s" + [' '] + "storeallcharacters";
  }

  /** Six tokens joined with spaces, written out. */
  lemma JoinSix(a: string, b: string, c: string, d: string, e: string, f: string)
    ensures Strings.Join([a, b, c, d, e, f], ' ') == a + [' '] + b + [' '] + c + [' '] + d + [' '] + e + [' '] + f
  {
    assert Strings.Join([f], ' ') == f;
    Strings.JoinCons(e, [f], ' ');
    Strings.JoinCons(d, [e, f], ' ');
    Strings.JoinCons(c, [d, e, f], ' ');
    Strings.JoinCons(b, [c, d, e, f], ' ');
    Strings.JoinCons(a, [b, c, d, e, f], ' ');
  }

  lemma SampleTokens(ts: seq<string>)
    requires ts == ["-f", "-T", "9", "-t", "-s", "storeallcharacters"]
    ensures forall k :: 0 <= k < |ts| ==> Strings.IsToken(ts[k], PARAMETER_SEPARATORS)
  {
    assert Strings.IsToken("storeallcharacters", PARAMETER_SEPARATORS) by {
      var t := "storeallcharacters";
      forall i | 0 <= i < |t| ensures t[i] != ' ' {
        assert t[i] in "abcdehlorst";
      }
    }
    forall k | 0 <= k < |ts|
      ensures Strings.IsToken(ts[k], PARAMETER_SEPARATORS)
    {
      if k < 5 {
        assert |ts[k]| <= 2;
      }
    }
  }

  /** The content a process finds at a file's path: none for a null file or a missing one. */
  function InputContent(files: map<Host.FileId, Bytes>, input: Option<Host.FileId>): Option<Bytes> {
    if input.Some? && input.value in files then Some(files[input.value]) else None
  }

  class PDF2SWFConverterService {
    var enabled: bool
    var executablePath: Option<string>
    var parameters: Option<string>
    /** The pdf2swf program: from the option tokens and the content at the input path, its exit
        value and what it writes to the output path. */
    const pdf2swf: (seq<string>, Option<Bytes>) -> (int, Bytes)

    constructor (enabled: bool, executablePath: Option<string>, parameters: Option<string>, pdf2swf: (seq<string>, Option<Bytes>) -> (int, Bytes))
      ensures this.enabled == enabled && this.executablePath == executablePath && this.parameters == parameters
      ensures this.pdf2swf == pdf2swf
    {
      this.enabled := enabled;
      this.executablePath := executablePath;
      this.parameters := parameters;
      this.pdf2swf := pdf2swf;
    }

    /** What convert(File) produces from the content at the input path: nothing when disabled, an
        IOException when no temporary file can be made, the CommandLine's IllegalArgumentException
        for a bad executable, the executor's ExecuteException for a non-zero exit value, and
        otherwise what pdf2swf wrote. */
    function Swf(canCreateTemp: bool, input: Option<Bytes>): Result<Option<Bytes>>
      reads this
    {
      if !enabled then Ok(None)
      else if !canCreateTemp then Err(IOException)
      else if !ValidExecutable(executablePath) then Err(IllegalArgument)
      else
        var (exit, output) := pdf2swf(ParameterTokens(parameters), input);
        if exit != 0 then Err(ExecuteFailure) else Ok(Some(output))
    }

    /** convert(inputFile, outputFile): when disabled, nothing runs and nothing changes; otherwise
        the command line is built and executed, pdf2swf writes the output file, and a non-zero
        exit value reaches the caller only as the executor's exception. */
    method ConvertInto(host: Host.Host, input: Option<Host.FileId>, output: Host.FileId) returns (r: Outcome)
      requires host.Valid() && output < host.nextFile
      modifies host`files, host`spawned
      ensures host.Valid()
      ensures !enabled ==> r == Pass && host.files == old(host.files) && host.spawned == old(host.spawned)
      ensures enabled && !ValidExecutable(executablePath) ==>
        r == Fail(IllegalArgument) && host.files == old(host.files) && host.spawned == old(host.spawned)
      ensures enabled && ValidExecutable(executablePath) ==>
        var (exit, written) := pdf2swf(ParameterTokens(parameters), InputContent(old(host.files), input));
        && host.spawned == old(host.spawned) + [ConvertCommandLine(executablePath, parameters, input, Some(output)).value]
        && host.files == old(host.files)[output := written]
        && (r == Pass <==> exit == 0)
        && (r != Pass ==> r == Fail(ExecuteFailure))
    {
      if !enabled {
        return Pass;
      }
      var cmd := ConvertCommandLine(executablePath, parameters, input, Some(output));
      if cmd.Err? {
        return Fail(cmd.error);
      }
      host.Spawn(cmd.value);
      var (exit, written) := pdf2swf(ParameterTokens(parameters), InputContent(host.files, input));
      host.WriteFile(output, written);
      if exit != 0 {
        return Fail(ExecuteFailure);
      }
      r := Pass;
    }

    /** convert(inputFile) as the source has it: a failure of the conversion propagates, and the
        temporary output file it created is left behind, empty when the command line could not be
        built and holding what pdf2swf wrote when the executor failed. */
    method ConvertAsWritten(host: Host.Host, input: Option<Host.FileId>) returns (r: Result<Option<Host.FileId>>)
      requires host.Valid() && (input.Some? ==> input.value < host.nextFile)
      modifies host`files, host`nextFile, host`spawned
      ensures host.Valid()
      ensures var s := Swf(host.canCreateTemp, InputContent(old(host.files), input));
        && (s.Err? ==> r == Err(s.error))
        && (s.Ok? && s.value.None? ==> r == Ok(None))
        && (s.Ok? && s.value.Some? ==> r == Ok(Some(old(host.nextFile))))
      ensures !(enabled && host.canCreateTemp) ==> host.files == old(host.files)
      ensures enabled && host.canCreateTemp ==>
        var written := if ValidExecutable(executablePath) then pdf2swf(ParameterTokens(parameters), InputContent(old(host.files), input)).1 else [];
        old(host.nextFile) !in old(host.files) && host.files == old(host.files)[old(host.nextFile) := written]
      ensures r.Err? && r.error != IOException ==> old(host.nextFile) !in old(host.files) && old(host.nextFile) in host.files
      ensures enabled && host.canCreateTemp && ValidExecutable(executablePath) ==>
        host.spawned == old(host.spawned) + [ConvertCommandLine(executablePath, parameters, input, Some(old(host.nextFile))).value]
      ensures !(enabled && host.canCreateTemp && ValidExecutable(executablePath)) ==> host.spawned == old(host.spawned)
    {
      if !enabled {
        return Ok(None);
      }
      var out := host.CreateTempFile();
      if out.Err? {
        return Err(out.error);
      }
      var done := ConvertInto(host, input, out.value);
      if done.Fail? {
        return Err(done.error);
      }
      r := Ok(Some(out.value));
    }

    /** convert(inputFile) with the temporary output file deleted when the conversion fails: on
        success the result is exactly the fresh file passed to pdf2swf as its output, holding what
        pdf2swf wrote; on every other path the files are as before. */
    method Convert(host: Host.Host, input: Option<Host.FileId>) returns (r: Result<Option<Host.FileId>>)
      requires host.Valid() && (input.Some? ==> input.value < host.nextFile)
      modifies host`files, host`nextFile, host`spawned
      ensures host.Valid()
      ensures var s := Swf(host.canCreateTemp, InputContent(old(host.files), input));
        && (s.Err? ==> r == Err(s.error) && host.files == old(host.files))
        && (s.Ok? && s.value.None? ==> r == Ok(None) && host.files == old(host.files))
        && (s.Ok? && s.value.Some? ==>
              r == Ok(Some(old(host.nextFile))) && old(host.nextFile) !in old(host.files)
              && host.files == old(host.files)[old(host.nextFile) := s.value.value])
      ensures enabled && host.canCreateTemp && ValidExecutable(executablePath) ==>
        host.spawned == old(host.spawned) + [ConvertCommandLine(executablePath, parameters, input, Some(old(host.nextFile))).value]
      ensures !(enabled && host.canCreateTemp && ValidExecutable(executablePath)) ==> host.spawned == old(host.spawned)
    {
      if !enabled {
        return Ok(None);
      }
      var out := host.CreateTempFile();
      if out.Err? {
        return Err(out.error);
      }
      var done := ConvertInto(host, input, out.value);
      if done.Fail? {
        host.DeleteQuietly(Some(out.value));
        return Err(done.error);
      }
      r := Ok(Some(out.value));
    }
  }

  /** The leak in convert(File): when pdf2swf fails on a null input (the document converter was
      off, so there is no PDF), the as-written conversion leaves its temporary file on disk. */
  method LeakOnFailure(tool: (seq<string>, Option<Bytes>) -> (int, Bytes)) returns (leaked: bool)
    requires tool([], None).0 != 0
    ensures leaked
  {
    var host := new Host.Host(true);
    var service := new PDF2SWFConverterService(true, Some("pdf2swf"), None, tool);
    assert "pdf2swf"[0] == 'p';
    var before := host.files;
    var temp := host.nextFile;
    var r := service.ConvertAsWritten(host, None);
    leaked := temp !in before && temp in host.files;
  }
}
