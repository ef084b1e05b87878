/**
  `process_file` and the output-argument rule of `main`, over a file
  system seen as a map from path to the whole decoded text of the file,
  as text mode reads it (line endings already translated to `\n`).
  Reading a path that is not in the map, or opening the empty path, fails
  with `FileNotFound`; the failure propagates and nothing is written.
 */
module FileProcessor {
  import opened IndentConverter

  type Path = seq<char>
  type FileSystem = map<Path, Text>

  datatype Option<+T> = None | Some(value: T)

  datatype IoError = FileNotFound(path: Path)

  datatype Result<+T> = Ok(value: T) | Err(error: IoError)

  /** Where the converted text goes: the output path if one is given, else the input path. */
  function EffectiveOutput(input: Path, output: Option<Path>): (r: Path)
    ensures r == input <==> output.None? || output.value == input
    ensures output.Some? ==> r == output.value
  {
    if output.None? then input else output.value
  }

  /** Paths that `open` can resolve; the empty path names no file. */
  predicate Openable(p: Path)
  {
    p != []
  }

  /** `process_file(input_file, output_file, to_tabs)`: read, convert, write one file. */
  function ProcessFile(fs: FileSystem, input: Path, output: Option<Path>, toTabs: bool): (r: Result<FileSystem>)
    ensures r.Err? <==> !(Openable(input) && input in fs) || !Openable(EffectiveOutput(input, output))
    ensures r.Err? && !(Openable(input) && input in fs) ==> r.error == FileNotFound(input)
    ensures r.Err? && Openable(input) && input in fs ==> r.error == FileNotFound(EffectiveOutput(input, output))
    ensures r.Ok? ==>
      var out := EffectiveOutput(input, output);
      && r.value.Keys == fs.Keys + {out}
      && r.value[out] == ConvertIndent(fs[input], toTabs)
      && (forall p :: p in fs && p != out ==> r.value[p] == fs[p])
  {
    if !Openable(input) || input !in fs then
      Err(FileNotFound(input))
    else
      var content := fs[input];
      var converted := ConvertIndent(content, toTabs);
      var out := EffectiveOutput(input, output);
      if !Openable(out) then
        Err(FileNotFound(out))
      else
        Ok(fs[out := converted])
  }

  /** `main`'s normalisation of the optional output argument: an empty one counts as absent. */
  function OutputArgument(arg: Option<Path>): (r: Option<Path>)
    ensures r.Some? <==> arg.Some? && arg.value != []
    ensures r.Some? ==> r == arg
  {
    if arg.Some? && arg.value != [] then arg else None
  }

  /**
    The effect of one command-line run: `process_file` with the normalised
    output argument. Since an empty output argument is dropped, a run fails
    only when its input file cannot be read.
   */
  function Run(fs: FileSystem, inputArg: Path, outputArg: Option<Path>, toTabs: bool): (r: Result<FileSystem>)
    ensures r.Err? <==> !(Openable(inputArg) && inputArg in fs)
    ensures r.Err? ==> r.error == FileNotFound(inputArg)
  {
    ProcessFile(fs, inputArg, OutputArgument(outputArg), toTabs)
  }

  /**
    Without an output argument, or with an empty one, a readable input file
    is overwritten in place with its converted text and no other file changes.
   */
  lemma RunInPlace(fs: FileSystem, input: Path, outputArg: Option<Path>, toTabs: bool)
    requires outputArg.None? || outputArg.value == []
    requires Openable(input) && input in fs
    ensures Run(fs, input, outputArg, toTabs) == Ok(fs[input := ConvertIndent(fs[input], toTabs)])
  {
  }

  /**
    With a non-empty output argument the converted text goes to that path;
    when it differs from the input path, the input file keeps its contents.
   */
  lemma RunToOutput(fs: FileSystem, input: Path, output: Path, toTabs: bool)
    requires Openable(input) && input in fs && output != []
    ensures var r := Run(fs, input, Some(output), toTabs);
      && r.Ok?
      && r.value[output] == ConvertIndent(fs[input], toTabs)
      && (output != input ==> r.value[input] == fs[input])
  {
  }

  /** A missing input file is reported and nothing is written. */
  lemma RunMissingInput(fs: FileSystem, input: Path, outputArg: Option<Path>, toTabs: bool)
    requires input !in fs
    ensures Run(fs, input, outputArg, toTabs) == Err(FileNotFound(input))
  {
  }

  /** End-to-end: tabs to spaces, in place. */
  lemma ExampleRunToSpaces(fs: FileSystem)
    requires fs == map["a.py" := "\tfoo\n\t\tbar\n"]
    ensures Run(fs, "a.py", None, false) == Ok(fs["a.py" := "    foo\n        bar\n"])
  {
    RunInPlace(fs, "a.py", None, false);
    FileToSpaces(fs["a.py"]);
  }

  /** End-to-end: spaces to tabs, in place, with an empty output argument. */
  lemma ExampleRunToTabs(fs: FileSystem)
    requires fs == map["a.py" := "    foo\n"]
    ensures Run(fs, "a.py", Some(""), true) == Ok(fs["a.py" := "\tfoo\n"])
  {
    RunInPlace(fs, "a.py", Some(""), true);
    FileToTabs(fs["a.py"]);
  }
}
