# JASM — a model of the JOHNNY2 assembler

JASM translates a JOHNNY2 assembly program into the simulator's memory
image. Each source line becomes one decimal word. The word is the base
value of the line's mnemonic (`DATA` 0, `TAKE` 1000, …, `HLT` 10000) plus
the optional integer operand. Memory has 1000 cells, so the image always
has exactly 1000 lines. Addresses past the end of the program hold `0`.

The first fatal error ends the run before anything is written: an unknown
mnemonic, or an operand that is not an integer. A line with more than two
tokens draws a warning and its extra tokens are ignored. Command-line
arguments choose the input and output paths. Each argument carries an input
prefix (`-i:`, `--input:`, `--inputFile:`) or an output prefix (`-o:`,
`--output:`, `--outputFile:`), and a later argument overrides an earlier
one. Any other argument prints the usage text and ends the run.

The model is organised by the parts of `Program.cs`:

- `Opcodes`: the opcode dictionary, as a lookup returning an option.
- `Int32Text`: the 32-bit arithmetic and number text the encoder relies on.
  This covers unchecked `int` addition (`Wrap32`), `Int32.ToString()`
  (`Format`) and `Convert.ToInt32(string)` (`ParseInt32`, which ends in a
  value, a format error or an overflow).
- `Tokenizer`: `String.Split` on space and tab. It is a naive split, so two
  separators in a row give an empty token.
- `Encoder`: the body of the address loop for one line (`EncodeLine`). It
  gives the word or the fatal error, and whether the excess-token warning
  was printed.
- `ImageBuilder`: the loop over the 1000 addresses, as a method that appends
  to the output buffer (`Assemble`). It is proved against a left fold
  (`Assembled`) and against lemmas that tie every output line to the encoder.
- `CommandLine`: the argument loop (`SelectPaths`) and `getParam`. The
  pattern text is built in a loop (`RegexPattern`). The anchored
  alternation is applied as "strip the first alias, in order, that the
  argument starts with" (`GetParam`, `StripAlias`).
- `Driver`: the main routine end to end over a file system given as a map
  from path to lines.
- `Scenarios`: whole runs on concrete programs and argument lists.

One might expect runs of blanks to separate tokens. The code splits at
every single space or tab, so `TAKE  5` (two spaces) has the tokens `TAKE`,
`` and `5`. It then fails with the invalid operand `""`, after the
excess-token warning. The model follows the code.

## Model

| member | source | states |
|---|---|---|
| Opcodes.Lookup | Program.cs:9-21 | a mnemonic is found only if it is one of the 11 table entries, and its value is a multiple of 1000 between 0 and 10000 |
| Opcodes.MnemonicsDistinct | Program.cs:9-21 | the table has exactly 11 mnemonics, pairwise distinct |
| Opcodes.LookupTable | Program.cs:10-20 | the k-th mnemonic (DATA, TAKE, ADD, SUB, SAVE, JMP, TST, INC, DEC, NULL, HLT) has value 1000·k |
| Opcodes.LookupClosed | Program.cs:72-73 | lookup succeeds exactly for the table's mnemonics |
| Opcodes.LookupInjective | Program.cs:9-21 | two mnemonics with the same value are the same mnemonic |
| Opcodes.LookupCaseSensitive | Program.cs:72-73 | lookup is case-sensitive: `take`, `Take`, `hlt` and the empty string are unknown |
| Int32Text.Wrap32 | Program.cs:80 | unchecked Int32 addition: the result is in Int32 range, congruent to the exact sum modulo 2^32, and equal to it when the sum fits |
| Int32Text.NatToDecimal | Program.cs:89 | the decimal text of a natural number is all digits, denotes that number, and has no leading zero |
| Int32Text.Format | Program.cs:89 | `ToString()` of a word starts with `-` exactly when the word is negative, its digits denote the absolute value, and there is no leading zero (`0` alone for zero) |
| Int32Text.TrimStart | Program.cs:80 | the parser skips leading white space (tab to carriage return, and space): what is left does not start with white space |
| Int32Text.TrimStartDropsOnlyWhite | Program.cs:80 | and only that: what is left is a suffix of the token, and every character removed is white space |
| Int32Text.TrimEnd | Program.cs:80 | the parser skips trailing white space: what is left does not end with white space |
| Int32Text.TrimEndDropsOnlyWhite | Program.cs:80 | and only that: what is left is a prefix of the token, and every character removed is white space |
| Int32Text.ParseInt32 | Program.cs:80 | a parsed operand is always in Int32 range |
| Int32Text.FormatRoundTrip | Program.cs:80 | parsing the text of any Int32 gives it back; the text of a number outside Int32 range is an overflow, not a format error |
| Int32Text.FormatHasNoBlank | Program.cs:89 | the text of a word contains no space or tab, so it is one token |
| Int32Text.ParsePlusSignExample | Program.cs:80 | a leading `+` and leading zeros are accepted: `+07` is 7 |
| Int32Text.Unsigned | Program.cs:80 | the parser drops at most one leading character: a suffix of the token, shorter exactly when the token starts with `-` or `+` |
| Int32Text.ParseWhiteSpaceExample | Program.cs:80 | white space other than space and tab (vertical tab, form feed) survives the split and is trimmed by the parser |
| Int32Text.ParseRejectsEmptyExamples | Program.cs:79-81 | the empty token and a lone sign are format errors |
| Int32Text.ParseRejectsTrailingJunkExample | Program.cs:79-81 | trailing junk after the digits (`5x`) is a format error |
| Int32Text.ParseRejectsBlankAfterSignExample | Program.cs:79-81 | a blank between the sign and the digits (`- 5`) is a format error |
| Int32Text.FormatExamples | Program.cs:89 | 0, 995, 10000 and -5 are written as `0`, `995`, `10000`, `-5` |
| Int32Text.WrapExample | Program.cs:80 | 10000 plus the largest Int32 wraps to the smallest Int32 plus 9999 |
| Tokenizer.Separators | Program.cs:66 | the separators of a line are the spaces and tabs, in order |
| Tokenizer.Split | Program.cs:66 | a line has one more token than separator characters, and no token contains a separator |
| Tokenizer.RejoinExtendFirst | Program.cs:66 | prefixing a character to the first token prefixes it to the rebuilt line |
| Tokenizer.SplitRejoin | Program.cs:66 | the split loses nothing: tokens and separators rebuild the line |
| Tokenizer.SplitAfterWord | Program.cs:66 | a separator-free word at the start of a line joins the first token of the rest |
| Tokenizer.RejoinSplit | Program.cs:66 | splitting separator-free tokens joined by separators gives the tokens back |
| Tokenizer.SplitWord | Program.cs:66 | a word without separators is one token |
| Tokenizer.SplitInstruction | Program.cs:66 | `MNEMONIC OPERAND` with one blank is exactly two tokens |
| Tokenizer.FirstTokenEmpty | Program.cs:66-69 | the first token is empty exactly when the line is empty or starts with a space or tab |
| Tokenizer.SplitDoubleSpaceExample | Program.cs:66 | `TAKE  5` splits into `TAKE`, `` and `5` |
| Tokenizer.SplitLeadingSpaceExample | Program.cs:66 | ` TAKE 5` splits into ``, `TAKE` and `5` |
| Encoder.EncodeLine | Program.cs:63-86 | the warning is drawn exactly when the line has more than two tokens; a word is in Int32 range; every error names the line's own address |
| Encoder.BlankMnemonicIsZero | Program.cs:69 | an empty line or one starting with a space or tab is the word 0, whatever follows |
| Encoder.MnemonicAlone | Program.cs:72-77 | a known mnemonic alone is its table value, with no warning |
| Encoder.MnemonicWithOperand | Program.cs:72-80 | a known mnemonic, one blank and the text of any Int32 encode to base plus operand, wrapped to 32 bits, with no warning |
| Encoder.InstructionSplits | Program.cs:66 | a known mnemonic, one blank and a number's text split into exactly those two tokens |
| Encoder.OperandAdded | Program.cs:72-80 | two tokens, a known mnemonic and an integer, encode to their wrapped sum |
| Encoder.MnemonicHasNoSeparator | Program.cs:9-21 | every mnemonic is non-empty and free of separators |
| Encoder.UnknownMnemonicIsFatal | Program.cs:72-75 | a non-empty unknown first token is fatal, naming that token and the address |
| Encoder.BadOperandIsFatal | Program.cs:77-84 | after a known mnemonic, a second token that is not an integer is fatal, and one out of range is an overflow |
| Encoder.ExcessTokensIgnored | Program.cs:68-80 | tokens after the second draw the warning but do not change the word |
| Encoder.NegativeOperandExample | Program.cs:80 | `TAKE -5` is 995 |
| Encoder.DoubleSpaceExample | Program.cs:66-83 | `TAKE  5` draws the warning and fails with the invalid operand `""` |
| Encoder.LeadingSpaceExample | Program.cs:66-69 | ` TAKE 5` is the word 0, with the warning |
| Encoder.WrapAroundExample | Program.cs:80 | `HLT` with the largest Int32 operand wraps to a negative word instead of failing |
| ImageBuilder.Encodings | Program.cs:62-65 | the loop looks at exactly 1000 addresses; an address past the input contributes 0 with no warning |
| ImageBuilder.EncodingsErrorsAtOwnAddress | Program.cs:73-83 | the error at an address names that address |
| ImageBuilder.BuildUpTo | Program.cs:61-90 | the loop's outcome after the first n addresses: on success the buffer holds exactly n lines |
| ImageBuilder.Assembled | Program.cs:61-90 | the outcome of the whole 1000-address loop: on success the image has exactly 1000 lines |
| ImageBuilder.WarnedUpTo | Program.cs:68 | the addresses warned in the first n: at most n of them, each below n and each with more than two tokens |
| ImageBuilder.Assemble | Program.cs:61-90 | the loop's outcome is the fold over the addresses; a failure names an address below 1000; the warnings are those of the addresses visited, in order |
| ImageBuilder.FailureIsFinal | Program.cs:73-84 | the first error ends the loop: later addresses change nothing |
| ImageBuilder.SuccessIffAllEncode | Program.cs:61-90 | the loop completes exactly when every address encodes |
| ImageBuilder.ImageContents | Program.cs:89 | after n addresses the buffer has n entries, entry a being the text of address a's word |
| ImageBuilder.FailureIsFirstError | Program.cs:61-90 | a failure is the error of some address, and every address before it encoded |
| ImageBuilder.AssembledIffLinesEncode | Program.cs:61-90 | assembly succeeds exactly when each of the first 1000 lines encodes |
| ImageBuilder.AssembledImage | Program.cs:62-89 | on success the buffer has 1000 entries: the text of each line's word at its address, and `0` past the input |
| ImageBuilder.AssembledFailure | Program.cs:61-90 | on failure the error is that of a line inside the input, and every earlier line encoded |
| ImageBuilder.Padded | Program.cs:62-89 | the padded image of a program always has 1000 entries |
| ImageBuilder.AssembledFromWords | Program.cs:61-90 | a program of at most 1000 encoding lines assembles to their words' texts padded with `0` |
| ImageBuilder.AssembledFailsAt | Program.cs:61-90 | the first line that does not encode decides the failure, whatever follows it |
| ImageBuilder.SameEncodingsSameOutcome | Program.cs:61-90 | the outcome depends only on the words of the addresses visited |
| ImageBuilder.LinesPastMemoryIgnored | Program.cs:62-65 | lines at index 1000 and above are never read |
| ImageBuilder.WarnedAddresses | Program.cs:68 | the warned addresses are exactly those visited with more than two tokens, strictly increasing |
| CommandLine.Alternation | Program.cs:110-113 | the aliases joined with `\|`: empty for no aliases, otherwise starting with the first alias and at least as long as the last |
| CommandLine.RegexPattern | Program.cs:109-114 | the pattern built is `^(`, the aliases joined with `\|`, then `)` |
| CommandLine.InputPattern | Program.cs:33 | the input pattern is `^(-i:\|--input:\|--inputFile:)` |
| CommandLine.OutputPattern | Program.cs:41 | the output pattern is `^(-o:\|--output:\|--outputFile:)` |
| CommandLine.StripAlias | Program.cs:115-116 | the replacement leaves a suffix of the argument, and leaves the argument whole when no alias starts it |
| CommandLine.StripFirstMatch | Program.cs:115-116 | the first alias, in pattern order, that starts the argument is the one removed |
| CommandLine.GetParam | Program.cs:108-117 | after building the pattern, the path is the argument with its first matching alias removed |
| CommandLine.SelectPaths | Program.cs:23-48 | the argument loop's result is the fold of the arguments over the default paths |
| CommandLine.Step | Program.cs:28-46 | one argument ends the selection with the Help outcome exactly when it carries neither prefix, and that outcome carries the argument; an input argument replaces only the input path, with a suffix of the argument; an output argument replaces only the output path, likewise |
| CommandLine.Selected | Program.cs:23-47 | the fold of the arguments over the default paths: a Help outcome carries one of the arguments, one with neither prefix; when every argument carries a prefix, paths are selected |
| CommandLine.HelpIsFinal | Program.cs:43-46 | once help is due, later arguments change nothing |
| CommandLine.HelpOnFirstUnrecognised | Program.cs:26-47 | the selection stops at the first argument with neither prefix, with the Help outcome carrying that argument, whatever follows |
| CommandLine.HelpAfterRecognised | Program.cs:43-46 | an unrecognised argument after recognised ones ends the selection with the Help outcome |
| CommandLine.AllRecognisedGivesPaths | Program.cs:26-42 | arguments that all carry a prefix select paths and never show help |
| CommandLine.InputOutputDisjoint | Program.cs:28-38 | no argument carries both an input prefix and an output prefix |
| CommandLine.LastArgumentWins | Program.cs:23-42 | each path comes from the last argument of its kind with the prefix stripped, or is the default when no argument of that kind exists |
| CommandLine.LastIndex | Program.cs:26-42 | the index of the last argument of a kind is within the arguments, or just past them when there is none |
| CommandLine.LastIndexShape | Program.cs:26-42 | that index names an argument of the kind, no later argument is of that kind, and it lies past the end exactly when no argument is of that kind |
| Driver.Run | Program.cs:22-96 | help exactly when an argument is unrecognised; a missing input is reported with the selected input path; a failure or help writes nothing; a success writes the full 1000-line image to the selected output path and changes no other file |
| Scenarios.DecimalExamples | Program.cs:89 | 1005 and 2003 are written as `1005` and `2003` |
| Scenarios.TakeFive | Program.cs:66-80 | `TAKE 5` is 1005 |
| Scenarios.AddThree | Program.cs:66-80 | `ADD 3` is 2003 |
| Scenarios.Halt | Program.cs:72-77 | `HLT` is 10000, with no warning |
| Scenarios.FooOne | Program.cs:72-75 | `FOO 1` is an unknown opcode `FOO` |
| Scenarios.ThreeLineProgram | Program.cs:61-90 | `TAKE 5`, `ADD 3`, `HLT` assemble to 1005, 2003, 10000, then 0 |
| Scenarios.ThreeLineImage | Program.cs:89 | that image is the text `1005`, `2003`, `10000`, then `0` up to address 999 |
| Scenarios.UnknownOpcodeProgram | Program.cs:72-75 | a program `FOO 1` fails at address 0 with no image |
| Scenarios.DataProgram | Program.cs:10 | `DATA` alone is the word 0, so the image is all `0` |
| Scenarios.LateErrorProgram | Program.cs:79-83 | a bad operand on the second line leaves no image, even though the first line encoded |
| Scenarios.LateErrorWarnings | Program.cs:68 | only the double-blank line draws the warning |
| Scenarios.OverrideKinds | Program.cs:28-38 | `-i:…` and `--inputFile:…` are input arguments, and `--output:…` is only an output argument |
| Scenarios.OverrideStrips | Program.cs:108-116 | `--inputFile:c.jasm` strips to `c.jasm`, not to `File:c.jasm`, and `--output:b.ram` strips to `b.ram` |
| Scenarios.ArgumentsOverride | Program.cs:26-42 | `-i:a.jasm --output:b.ram --inputFile:c.jasm` selects `c.jasm` and `b.ram` |
| Scenarios.ArgumentsHelp | Program.cs:43-46 | `-o:x -x -i:y` stops the selection at `-x`, with the Help outcome carrying `-x` |

## Left out

- Console text is not modelled. This covers the warning, error and success messages and the usage text. A run's outcome carries the error value and the warned addresses instead of the printed lines.
- `Help`/`ShowedHelp` carry the offending argument; the printed usage text (Program.cs:97-107) is fixed and does not name it.
- The stopwatch timing is left out. It is wall-clock time and only appears in a message.
- The file system is a map from path to the file's lines. `File.Exists` is membership. `File.ReadAllLines` is the lookup, so line-ending handling is not modelled. `File.WriteAllLines` is a map update.
- A missing input file throws an unhandled `FileNotFoundException`. The model reports it as the `InputNotFound` outcome, with no file changed.
- An operand outside Int32 range throws an `OverflowException`. The `FormatException` handler does not catch it, so the process crashes. The model reports it as the `OperandOverflow` error. As with the caught errors, nothing is written.
- The regular-expression engine is not modelled. The pattern text is built as in the code. Applying it is modelled as removing the first alias, in order, that starts the argument. That is what an anchored alternation of these literal aliases does, since they contain no metacharacters.
- Culture-sensitive behaviour is not modelled. `StartsWith` is modelled as an ordinal prefix test, so characters a culture comparison ignores are not skipped. The parser accepts only the ASCII sign characters and digits, not a culture's other sign symbols or trailing NUL characters.
- Int32Text.ParseInt32: the function's own contract states only that a value is in Int32 range. Its accepted syntax is defined by its body, and is stated through FormatRoundTrip and the parse examples rather than as a full characterisation.
- Determinism and repeatability need no separate statement. Every operation is a function of its inputs, or a method proved equal to one.
