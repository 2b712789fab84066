/**
 * The assembler's main routine end to end: select the paths, read the input
 * program, run the assembly loop, and write the output file only when all
 * 1000 addresses assembled. The file system is a map from path to the lines
 * of the file at that path.
 */
module Driver {
  import opened Encoder
  import opened ImageBuilder
  import opened CommandLine

  /** How a run ends, with the file it writes if any. */
  datatype RunOutcome =
    | ShowedHelp(badArg: string)
      // an argument was not recognised; no file was touched
    | InputNotFound(inFile: string)
      // the input path names no file (FileNotFoundException)
    | Aborted(error: AsmError, warnings: seq<nat>)
      // a fatal assembly error; nothing was written
    | Wrote(outFile: string, lines: seq<string>, warnings: seq<nat>)
      // the whole image was written to `outFile`

  /**
   * The assembler's main routine over the file system `files`; `after` is the
   * file system when it returns. Only a complete image is ever written, and
   * only to the output path; every other outcome leaves the files as they were.
   */
  method Run(args: seq<string>, files: map<string, seq<string>>)
    returns (o: RunOutcome, after: map<string, seq<string>>)
    ensures Selected(args).Help? <==> o.ShowedHelp?
    ensures o.ShowedHelp? ==> o.badArg == Selected(args).badArg
    ensures o.InputNotFound? <==> Selected(args).Paths? && Selected(args).inFile !in files
    ensures o.InputNotFound? ==> o.inFile == Selected(args).inFile
    ensures o.Aborted? || o.Wrote? ==> Selected(args).Paths? && Selected(args).inFile in files
    ensures o.Aborted? ==> Assembled(files[Selected(args).inFile]) == Failure(o.error)
    ensures o.Aborted? ==> 0 <= o.error.addr < MemorySize
    ensures o.Aborted? ==> o.warnings == WarnedUpTo(Encodings(files[Selected(args).inFile]), o.error.addr + 1)
    ensures o.Wrote? ==> o.warnings == WarnedUpTo(Encodings(files[Selected(args).inFile]), MemorySize)
    ensures o.Wrote? ==>
      o.outFile == Selected(args).outFile &&
      Assembled(files[Selected(args).inFile]) == Success(o.lines) && |o.lines| == MemorySize
    ensures !o.Wrote? ==> after == files
    ensures o.Wrote? ==> after == files[o.outFile := o.lines]
  {
    after := files;
    var selection := SelectPaths(args);
    if selection.Help? {
      return ShowedHelp(selection.badArg), after;
    }
    if selection.inFile !in files {
      return InputNotFound(selection.inFile), after;
    }
    var jasm := files[selection.inFile];
    var result, warnings := Assemble(jasm);
    if result.Failure? {
      return Aborted(result.error, warnings), after;
    }
    AssembledImage(jasm);
    o := Wrote(selection.outFile, result.image, warnings);
    after := files[selection.outFile := result.image];
  }
}
