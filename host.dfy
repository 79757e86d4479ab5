/** The machine the document viewer runs on, as far as the conversion code touches it: temporary
    files, open input streams, and the processes it spawns. */
module Host {
  import opened Outcomes
  import Strings

  type Bytes = seq<bv8>
  type FileId = nat
  type StreamId = nat

  /** An org.apache.commons.exec.CommandLine: the executable, the argument tokens (some of them
      ${name} placeholders) and the substitution map binding the placeholders to files, where a
      file bound to null is None. */
  datatype CommandLine = CommandLine(executable: string, arguments: seq<string>, substitution: map<string, Option<FileId>>)

  /** The absolute path of a temporary file, as File.createTempFile("doc-viewer", null) names it. */
  function TempPath(f: FileId): string {
    "/tmp/doc-viewer" + Strings.NatToString(f) + ".tmp"
  }

  /** How commons-exec expands one argument: a placeholder whose name is bound to a file becomes
      that file's path; an unbound placeholder or one bound to null stays as it is (lenient
      substitution), and so does every other argument. */
  function ExpandArgument(arg: string, substitution: map<string, Option<FileId>>): string {
    if |arg| >= 3 && arg[..2] == "${" && arg[|arg| - 1] == '}' then
      var name := arg[2..|arg| - 1];
      if name in substitution && substitution[name].Some? then TempPath(substitution[name].value) else arg
    else arg
  }

  /** The argument vector the operating system receives. */
  function Argv(cmd: CommandLine): (argv: seq<string>)
    ensures |argv| == |cmd.arguments| + 1 && argv[0] == cmd.executable
    ensures forall k :: 0 <= k < |cmd.arguments| ==> argv[k + 1] == ExpandArgument(cmd.arguments[k], cmd.substitution)
  {
    [cmd.executable] + seq(|cmd.arguments|, k requires 0 <= k < |cmd.arguments| => ExpandArgument(cmd.arguments[k], cmd.substitution))
  }

  class Host {
    /** The files on disk, by identity, with their content. */
    var files: map<FileId, Bytes>
    /** The input streams open at the moment, with the bytes they deliver. */
    var streams: map<StreamId, Bytes>
    /** Every command line executed so far, oldest first. */
    var spawned: seq<CommandLine>
    /** Whether the temporary directory accepts new files; when it does not, createTempFile throws. */
    var canCreateTemp: bool
    var nextFile: nat
    var nextStream: nat

    ghost predicate Valid()
      reads this
    {
      (forall f :: f in files ==> f < nextFile) && (forall s :: s in streams ==> s < nextStream)
    }

    constructor (canCreateTemp: bool)
      ensures Valid()
      ensures files == map[] && streams == map[] && spawned == [] && this.canCreateTemp == canCreateTemp
    {
      files, streams, spawned := map[], map[], [];
      this.canCreateTemp := canCreateTemp;
      nextFile, nextStream := 0, 0;
    }

    /** File.createTempFile: a new empty file, or an IOException when the directory refuses it. */
    method CreateTempFile() returns (r: Result<FileId>)
      requires Valid()
      modifies this`files, this`nextFile
      ensures Valid()
      ensures r.Ok? <==> canCreateTemp
      ensures r.Ok? ==> r.value == old(nextFile) && r.value !in old(files) && files == old(files)[r.value := []]
      ensures r.Ok? ==> nextFile == old(nextFile) + 1
      ensures r.Err? ==> r.error == IOException && files == old(files) && nextFile == old(nextFile)
    {
      if !canCreateTemp {
        return Err(IOException);
      }
      r := Ok(nextFile);
      files := files[nextFile := []];
      nextFile := nextFile + 1;
    }

    /** Writing a file's whole content, as a process or a copy does; a file that was deleted is
        created again under its old name. */
    method WriteFile(f: FileId, data: Bytes)
      requires Valid() && f < nextFile
      modifies this`files
      ensures Valid()
      ensures files == old(files)[f := data]
    {
      files := files[f := data];
    }

    /** FileUtils.deleteQuietly: removes the file when there is one; never throws. */
    method DeleteQuietly(f: Option<FileId>)
      requires Valid()
      modifies this`files
      ensures Valid()
      ensures files == if f.Some? then old(files) - {f.value} else old(files)
    {
      if f.Some? {
        files := files - {f.value};
      }
    }

    /** new FileInputStream(file): a null file throws a NullPointerException, a missing one a
        FileNotFoundException (an IOException). */
    method OpenFile(f: Option<FileId>) returns (r: Result<StreamId>)
      requires Valid()
      modifies this`streams, this`nextStream
      ensures Valid()
      ensures f.None? ==> r == Err(NullPointer)
      ensures f.Some? && f.value !in files ==> r == Err(IOException)
      ensures f.Some? && f.value in files ==> r.Ok? && r.value !in old(streams) && streams == old(streams)[r.value := files[f.value]]
      ensures r.Err? ==> streams == old(streams)
    {
      if f.None? {
        return Err(NullPointer);
      }
      if f.value !in files {
        return Err(IOException);
      }
      var s := OpenBytes(files[f.value]);
      r := Ok(s);
    }

    /** A stream over bytes held elsewhere, such as a repository binary. */
    method OpenBytes(data: Bytes) returns (s: StreamId)
      requires Valid()
      modifies this`streams, this`nextStream
      ensures Valid()
      ensures s !in old(streams) && streams == old(streams)[s := data]
    {
      s := nextStream;
      streams := streams[s := data];
      nextStream := nextStream + 1;
    }

    /** IOUtils.closeQuietly: closes the stream when there is one; never throws. */
    method CloseQuietly(s: Option<StreamId>)
      requires Valid()
      modifies this`streams
      ensures Valid()
      ensures streams == if s.Some? then old(streams) - {s.value} else old(streams)
    {
      if s.Some? {
        streams := streams - {s.value};
      }
    }

    /** Starting a process for the command line. */
    method Spawn(cmd: CommandLine)
      modifies this`spawned
      ensures spawned == old(spawned) + [cmd]
    {
      spawned := spawned + [cmd];
    }
  }
}
