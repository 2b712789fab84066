/** Whole runs of the assembly loop and of the argument selection on concrete inputs. */
module Scenarios {
  import opened Wrappers
  import opened Opcodes
  import opened Int32Text
  import opened Tokenizer
  import opened Encoder
  import opened ImageBuilder
  import opened CommandLine

  lemma DecimalExamples()
    ensures Format(1005) == "1005" && Format(2003) == "2003"
  {
    assert NatToDecimal(10) == "10" && NatToDecimal(100) == "100";
    assert NatToDecimal(20) == "20" && NatToDecimal(200) == "200";
  }

  lemma TakeFive(line: string, addr: int)
    requires line == "TAKE 5"
    ensures EncodeLine(line, addr).word == Ok(1005)
  {
    assert line == "TAKE" + " " + Format(5) by {
      FormatExamples();
    }
    MnemonicWithOperand("TAKE", 5, addr);
  }

  lemma AddThree(line: string, addr: int)
    requires line == "ADD 3"
    ensures EncodeLine(line, addr).word == Ok(2003)
  {
    assert line == "ADD" + " " + Format(3) by {
      assert Format(3) == "3";
    }
    MnemonicWithOperand("ADD", 3, addr);
  }

  lemma Halt(line: string, addr: int)
    requires line == "HLT"
    ensures EncodeLine(line, addr) == Encoded(Ok(10000), false)
  {
    MnemonicAlone(line, addr);
  }

  lemma FooOne(line: string, addr: int)
    requires line == "FOO 1"
    ensures EncodeLine(line, addr).word == Err(UnknownOpcode("FOO", addr))
  {
    assert line == "FOO" + " " + "1";
    assert Lookup("FOO") == None;
    SplitInstruction("FOO", "1");
    UnknownMnemonicIsFatal(line, addr);
  }

  /**
   * ["TAKE 5", "ADD 3", "HLT"] assembles to 1005, 2003, 10000 at addresses
   * 0 to 2 and 0 everywhere else.
   */
  lemma ThreeLineProgram(jasm: seq<string>)
    requires jasm == ["TAKE 5", "ADD 3", "HLT"]
    ensures Assembled(jasm) == Success(Padded([1005, 2003, 10000]))
  {
    var words := [1005, 2003, 10000];
    forall a | 0 <= a < |jasm| ensures EncodeLine(jasm[a], a).word == Ok(words[a]) {
      if a == 0 {
        TakeFive(jasm[a], a);
      } else if a == 1 {
        AddThree(jasm[a], a);
      } else {
        Halt(jasm[a], a);
      }
    }
    AssembledFromWords(jasm, words);
  }

  /** The padded image of those three words, as text. */
  lemma ThreeLineImage()
    ensures Padded([1005, 2003, 10000])[..3] == ["1005", "2003", "10000"]
    ensures forall a :: 3 <= a < MemorySize ==> Padded([1005, 2003, 10000])[a] == "0"
  {
    DecimalExamples();
    FormatExamples();
  }

  /** ["FOO 1"] stops with an unknown-opcode error at address 0, and no image. */
  lemma UnknownOpcodeProgram(jasm: seq<string>)
    requires jasm == ["FOO 1"]
    ensures Assembled(jasm) == Failure(UnknownOpcode("FOO", 0))
  {
    var k: nat := 0;
    FooOne(jasm[k], k);
    AssembledFailsAt(jasm, k);
  }

  /** ["DATA"] puts 0 at address 0, like the addresses past the input. */
  lemma DataProgram(jasm: seq<string>)
    requires jasm == ["DATA"]
    ensures Assembled(jasm) == Success(Padded([0]))
    ensures forall a :: 0 <= a < MemorySize ==> Padded([0])[a] == "0"
  {
    forall a | 0 <= a < |jasm| ensures EncodeLine(jasm[a], a).word == Ok(0) {
      MnemonicAlone(jasm[a], a);
    }
    AssembledFromWords(jasm, [0]);
    FormatExamples();
  }

  /**
   * A bad line after a good one still leaves no image: the error names the
   * later address, and that line's excess-token warning came first.
   */
  lemma LateErrorProgram(jasm: seq<string>)
    requires jasm == ["HLT", "TAKE  5"]
    ensures Assembled(jasm) == Failure(InvalidOperand("", 1))
  {
    var cells := Encodings(jasm);
    var k: nat := 1;
    forall a | 0 <= a < k ensures EncodeLine(jasm[a], a) == cells[a] == Encoded(Ok(10000), false) {
      Halt(jasm[a], a);
    }
    assert EncodeLine(jasm[k], k) == cells[k] == Encoded(Err(InvalidOperand("", k)), true) by {
      DoubleSpaceExample(k);
    }
    AssembledFailsAt(jasm, k);
  }

  /** The bad line of LateErrorProgram is also the only one warned about. */
  lemma LateErrorWarnings(jasm: seq<string>)
    requires jasm == ["HLT", "TAKE  5"]
    ensures WarnedUpTo(Encodings(jasm), 2) == [1]
  {
    var cells := Encodings(jasm);
    var k: nat := 1;
    assert EncodeLine(jasm[0], 0) == cells[0] && !cells[0].excessWarning by {
      Halt(jasm[0], 0);
    }
    assert EncodeLine(jasm[k], k) == cells[k] && cells[k].excessWarning by {
      DoubleSpaceExample(k);
    }
    assert WarnedUpTo(cells, 1) == [];
  }

  /** The kinds of the arguments of ArgumentsOverride. */
  lemma OverrideKinds(args: seq<string>)
    requires args == ["-i:a.jasm", "--output:b.ram", "--inputFile:c.jasm"]
    ensures IsInputArg(args[0]) && IsOutputArg(args[1]) && IsInputArg(args[2])
    ensures !IsInputArg(args[1]) && !IsOutputArg(args[2])
  {
    var first, second, third := args[0], args[1], args[2];
    assert InputAliases[0] <= first;
    assert OutputAliases[1] <= second;
    assert InputAliases[2] <= third;
    forall k | 0 <= k < |InputAliases| ensures !(InputAliases[k] <= second) {
      assert InputAliases[k][1] != second[1] || InputAliases[k][2] != second[2];
    }
    forall k | 0 <= k < |OutputAliases| ensures !(OutputAliases[k] <= third) {
      assert OutputAliases[k][1] != third[1] || OutputAliases[k][2] != third[2];
    }
  }

  /** Which aliases ArgumentsOverride's paths lose. */
  lemma OverrideStrips(args: seq<string>)
    requires args == ["-i:a.jasm", "--output:b.ram", "--inputFile:c.jasm"]
    ensures StripAlias(args[2], InputAliases) == "c.jasm"
    ensures StripAlias(args[1], OutputAliases) == "b.ram"
  {
    var second, third := args[1], args[2];
    assert InputAliases[0][1] != third[1] && InputAliases[1][7] != third[7];
    StripFirstMatch(third, InputAliases, 2);
    assert OutputAliases[0][1] != second[1];
    StripFirstMatch(second, OutputAliases, 1);
  }

  /** Later arguments override earlier ones, and "--inputFile:" is stripped whole. */
  lemma ArgumentsOverride(args: seq<string>)
    requires args == ["-i:a.jasm", "--output:b.ram", "--inputFile:c.jasm"]
    ensures Selected(args) == Paths("c.jasm", "b.ram")
  {
    OverrideKinds(args);
    OverrideStrips(args);
    var front := args[..2];
    var first := Selected(args[..1]);
    assert first.Paths? by {
      assert args[..1][..0] == [];
    }
    assert Selected(front) == Paths(first.inFile, "b.ram") by {
      assert front[..1] == args[..1] && front[1] == args[1];
    }
    assert args[..|args| - 1] == front;
  }

  /** An unrecognised argument ends the selection with a Help outcome, whatever follows it. */
  lemma ArgumentsHelp(args: seq<string>)
    requires args == ["-o:x", "-x", "-i:y"]
    ensures Selected(args) == Help("-x")
  {
    var first, second := args[0], args[1];
    assert Recognised(first) by {
      assert OutputAliases[0] <= first;
    }
    assert !Recognised(second) by {
      forall k | 0 <= k < |InputAliases| ensures !(InputAliases[k] <= second) {
        if k == 0 {
          assert InputAliases[k][1] != second[1];
        }
      }
      forall k | 0 <= k < |OutputAliases| ensures !(OutputAliases[k] <= second) {
        if k == 0 {
          assert OutputAliases[k][1] != second[1];
        }
      }
    }
    assert args == [first] + [second] + args[2..];
    HelpOnFirstUnrecognised([first], second, args[2..]);
  }
}
