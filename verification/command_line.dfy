/**
 * Command-line selection of the input and output paths: every argument must
 * carry one of the input prefixes or one of the output prefixes; the prefix
 * is stripped and the rest becomes that path, a later argument overriding an
 * earlier one. The first argument with neither prefix ends the selection with
 * the help text.
 */
module CommandLine {

  const DefaultInput: string := "program.jasm"
  const DefaultOutput: string := "output.ram"
  const InputAliases: seq<string> := ["-i:", "--input:", "--inputFile:"]
  const OutputAliases: seq<string> := ["-o:", "--output:", "--outputFile:"]

  /** Whether `arg` starts with one of the aliases. */
  predicate StartsWithAny(arg: string, aliases: seq<string>) {
    exists k :: 0 <= k < |aliases| && aliases[k] <= arg
  }

  predicate IsInputArg(arg: string) {
    StartsWithAny(arg, InputAliases)
  }

  predicate IsOutputArg(arg: string) {
    StartsWithAny(arg, OutputAliases)
  }

  /**
   * What replacing the anchored alternation of the aliases with "" does: the
   * alternatives are tried in order at the start of `raw`, and the first that
   * matches is removed.
   */
  function StripAlias(raw: string, aliases: seq<string>): (p: string)
    ensures |p| <= |raw| && p == raw[|raw| - |p|..]
    ensures !StartsWithAny(raw, aliases) ==> p == raw
  {
    if aliases == [] then raw
    else if aliases[0] <= raw then raw[|aliases[0]|..]
    else
      assert !StartsWithAny(raw, aliases) ==> !StartsWithAny(raw, aliases[1..]) by {
        if StartsWithAny(raw, aliases[1..]) {
          var k :| 0 <= k < |aliases[1..]| && aliases[1..][k] <= raw;
          assert aliases[k + 1] <= raw;
        }
      }
      StripAlias(raw, aliases[1..])
  }

  /** The first alias that `raw` starts with is the one removed. */
  lemma {:induction false} StripFirstMatch(raw: string, aliases: seq<string>, k: nat)
    requires k < |aliases| && aliases[k] <= raw
    requires forall j :: 0 <= j < k ==> !(aliases[j] <= raw)
    ensures StripAlias(raw, aliases) == raw[|aliases[k]|..]
  {
    if k > 0 {
      StripFirstMatch(raw, aliases[1..], k - 1);
    }
  }

  /** The aliases joined with '|', as they appear inside the pattern's group. */
  function Alternation(aliases: seq<string>): (r: string)
    ensures aliases != [] ==> aliases[0] <= r
    ensures aliases != [] ==> |r| >= |aliases[|aliases| - 1]|
    ensures aliases == [] ==> r == ""
  {
    if aliases == [] then ""
    else if |aliases| == 1 then aliases[0]
    else Alternation(aliases[..|aliases| - 1]) + "|" + aliases[|aliases| - 1]
  }

  /** The pattern text built by getParam: "^(", the aliases separated by '|', then ")". */
  method RegexPattern(argAliases: seq<string>) returns (pattern: string)
    ensures pattern == "^(" + Alternation(argAliases) + ")"
  {
    pattern := "^(";
    for i := 0 to |argAliases|
      invariant pattern == "^(" + Alternation(argAliases[..i])
    {
      if i != 0 {
        pattern := pattern + "|";
      }
      assert argAliases[..i + 1][..i] == argAliases[..i];
      pattern := pattern + argAliases[i];
    }
    assert argAliases[..|argAliases|] == argAliases;
    pattern := pattern + ")";
  }

  /** The pattern for the input aliases. */
  lemma InputPattern()
    ensures "^(" + Alternation(InputAliases) + ")" == "^(-i:|--input:|--inputFile:)"
  {
    assert InputAliases[..2][..1] == InputAliases[..1];
  }

  /** The pattern for the output aliases. */
  lemma OutputPattern()
    ensures "^(" + Alternation(OutputAliases) + ")" == "^(-o:|--output:|--outputFile:)"
  {
    assert OutputAliases[..2][..1] == OutputAliases[..1];
  }

  /**
   * Removes the leading alias from `rawArg`. The loop goes over the aliases
   * in the order they are joined into the pattern `^(a|b|c)`.
   */
  method GetParam(rawArg: string, argAliases: seq<string>) returns (p: string)
    ensures p == StripAlias(rawArg, argAliases)
  {
    // getParam first builds the pattern; replacing its match with "" then
    // amounts to the ordered prefix test below.
    var pattern := RegexPattern(argAliases);
    var i := 0;
    while i < |argAliases|
      invariant 0 <= i <= |argAliases|
      invariant forall j :: 0 <= j < i ==> !(argAliases[j] <= rawArg)
      invariant StripAlias(rawArg, argAliases) == StripAlias(rawArg, argAliases[i..])
    {
      if argAliases[i] <= rawArg {
        StripFirstMatch(rawArg, argAliases, i);
        return rawArg[|argAliases[i]|..];
      }
      assert argAliases[i..][1..] == argAliases[i + 1..];
      i := i + 1;
    }
    p := rawArg;
  }

  /** The paths the arguments select, or the first argument that is neither kind. */
  datatype Selection = Paths(inFile: string, outFile: string) | Help(badArg: string)

  /** One argument's effect on the paths selected so far. */
  function Step(paths: Selection, arg: string): (r: Selection)
    requires paths.Paths?
    ensures r.Help? <==> !Recognised(arg)
    ensures r.Help? ==> r.badArg == arg
    ensures IsInputArg(arg) ==> r.outFile == paths.outFile && |r.inFile| <= |arg| && r.inFile == arg[|arg| - |r.inFile|..]
    ensures !IsInputArg(arg) && IsOutputArg(arg) ==>
      r.inFile == paths.inFile && |r.outFile| <= |arg| && r.outFile == arg[|arg| - |r.outFile|..]
  {
    if IsInputArg(arg) then paths.(inFile := StripAlias(arg, InputAliases))
    else if IsOutputArg(arg) then paths.(outFile := StripAlias(arg, OutputAliases))
    else Help(arg)
  }

  /** The selection after the arguments `args`, processed from first to last. */
  function Selected(args: seq<string>): (r: Selection)
    ensures r.Help? ==> r.badArg in args && !Recognised(r.badArg)
    ensures (forall k :: 0 <= k < |args| ==> Recognised(args[k])) ==> r.Paths?
  {
    if args == [] then Paths(DefaultInput, DefaultOutput)
    else match Selected(args[..|args| - 1])
      case Help(bad) => Help(bad)
      case Paths(i, o) => Step(Paths(i, o), args[|args| - 1])
  }

  /** The argument loop of the assembler's main routine. */
  method SelectPaths(args: seq<string>) returns (r: Selection)
    ensures r == Selected(args)
  {
    var inFile := DefaultInput;
    var outFile := DefaultOutput;
    for i := 0 to |args|
      invariant Selected(args[..i]) == Paths(inFile, outFile)
    {
      assert args[..i + 1][..i] == args[..i];
      if IsInputArg(args[i]) {
        inFile := GetParam(args[i], InputAliases);
      } else if IsOutputArg(args[i]) {
        outFile := GetParam(args[i], OutputAliases);
      } else {
        HelpIsFinal(args, i + 1);
        return Help(args[i]);
      }
    }
    assert args[..|args|] == args;
    r := Paths(inFile, outFile);
  }

  /** Once help is due, later arguments change nothing. */
  lemma {:induction false} HelpIsFinal(args: seq<string>, n: nat)
    requires n <= |args| && Selected(args[..n]).Help?
    ensures Selected(args) == Selected(args[..n])
  {
    if n < |args| {
      var front := args[..|args| - 1];
      assert front[..n] == args[..n];
      HelpIsFinal(front, n);
    } else {
      assert args[..n] == args;
    }
  }

  predicate Recognised(arg: string) {
    IsInputArg(arg) || IsOutputArg(arg)
  }

  /**
   * The first unrecognised argument ends the selection with a Help outcome carrying it,
   * whatever follows it.
   */
  lemma HelpOnFirstUnrecognised(front: seq<string>, arg: string, rest: seq<string>)
    requires forall j :: 0 <= j < |front| ==> Recognised(front[j])
    requires !Recognised(arg)
    ensures Selected(front + [arg] + rest) == Help(arg)
  {
    var args := front + [arg] + rest;
    HelpAfterRecognised(front, arg);
    assert args[..|front| + 1] == front + [arg];
    HelpIsFinal(args, |front| + 1);
  }

  /** An unrecognised argument after recognised ones ends the selection with a Help outcome carrying it. */
  lemma HelpAfterRecognised(front: seq<string>, arg: string)
    requires forall j :: 0 <= j < |front| ==> Recognised(front[j])
    requires !Recognised(arg)
    ensures Selected(front + [arg]) == Help(arg)
  {
    AllRecognisedGivesPaths(front);
    assert (front + [arg])[..|front|] == front;
  }

  /** Recognised arguments alone never call for help. */
  lemma {:induction false} AllRecognisedGivesPaths(args: seq<string>)
    requires forall k :: 0 <= k < |args| ==> Recognised(args[k])
    ensures Selected(args).Paths?
  {
    if args != [] {
      var front := args[..|args| - 1];
      assert forall k :: 0 <= k < |front| ==> front[k] == args[k];
      AllRecognisedGivesPaths(front);
    }
  }

  /** No argument is both an input and an output argument. */
  lemma InputOutputDisjoint(arg: string)
    ensures !(IsInputArg(arg) && IsOutputArg(arg))
  {
    if IsInputArg(arg) {
      var k :| 0 <= k < |InputAliases| && InputAliases[k] <= arg;
      assert arg[1] == InputAliases[k][1] && arg[2] == InputAliases[k][2];
      assert arg[1] == 'i' || arg[2] == 'i';
    }
    if IsOutputArg(arg) {
      var m :| 0 <= m < |OutputAliases| && OutputAliases[m] <= arg;
      assert arg[1] == OutputAliases[m][1] && arg[2] == OutputAliases[m][2];
      assert arg[1] != 'i' && arg[2] != 'i';
    }
  }

  /**
   * When every argument is recognised, the input path comes from the last
   * input argument, with its prefix stripped, and the output path from the
   * last output argument; a kind that never occurs keeps its default.
   */
  lemma {:induction false} LastArgumentWins(args: seq<string>)
    requires forall k :: 0 <= k < |args| ==> Recognised(args[k])
    ensures Selected(args).Paths?
    ensures var k := LastIndex(args, true);
      Selected(args).inFile == if k < |args| then StripAlias(args[k], InputAliases) else DefaultInput
    ensures var k := LastIndex(args, false);
      Selected(args).outFile == if k < |args| then StripAlias(args[k], OutputAliases) else DefaultOutput
  {
    if args != [] {
      var front := args[..|args| - 1];
      var last := args[|args| - 1];
      assert forall k :: 0 <= k < |front| ==> front[k] == args[k];
      LastArgumentWins(front);
      InputOutputDisjoint(last);
    }
  }

  /** Whether `arg` is an input argument (or an output argument when `input` is false). */
  predicate IsKind(arg: string, input: bool) {
    if input then IsInputArg(arg) else IsOutputArg(arg)
  }

  /**
   * The index of the last input argument (or output argument when `input` is
   * false); `|args|` when there is none.
   */
  function LastIndex(args: seq<string>, input: bool): (k: nat)
    ensures k <= |args|
  {
    if args == [] then 0
    else if IsKind(args[|args| - 1], input) then |args| - 1
    else if LastIndex(args[..|args| - 1], input) == |args| - 1 then |args|
    else LastIndex(args[..|args| - 1], input)
  }

  /** LastIndex finds the last argument of the kind, and nothing after it is of that kind. */
  lemma {:induction false} LastIndexShape(args: seq<string>, input: bool)
    ensures LastIndex(args, input) < |args| <==> exists k :: 0 <= k < |args| && IsKind(args[k], input)
    ensures LastIndex(args, input) < |args| ==> IsKind(args[LastIndex(args, input)], input)
    ensures forall j :: LastIndex(args, input) < j < |args| ==> !IsKind(args[j], input)
  {
    if args != [] {
      var front := args[..|args| - 1];
      LastIndexShape(front, input);
      assert forall k :: 0 <= k < |front| ==> front[k] == args[k];
    }
  }
}
