/**
 * The per-line encoder: one source line at a given memory address becomes one
 * instruction word, base value of the mnemonic plus the operand, or a fatal
 * error naming the offending token and the address.
 */
module Encoder {
  import opened Wrappers
  import opened Opcodes
  import opened Int32Text
  import opened Tokenizer

  /** The fatal conditions of the assembly loop, each with the offending token and address. */
  datatype AsmError =
    | UnknownOpcode(mnemonic: string, addr: int)
      // the first token is not in the opcode table (KeyNotFoundException)
    | InvalidOperand(operand: string, addr: int)
      // the second token is not an integer (FormatException)
    | OperandOverflow(operand: string, addr: int)
      // the second token is an integer outside Int32 range (OverflowException, not caught)

  datatype Result<+T> = Ok(value: T) | Err(error: AsmError)

  /** What one line contributes: its word or fatal error, and whether it drew the excess-token warning. */
  datatype Encoded = Encoded(word: Result<int>, excessWarning: bool)

  /**
   * Encodes the line at address `addr`. The word starts at 0; an empty first
   * token leaves it there; otherwise the mnemonic's base value is added and,
   * when a second token exists, its Int32 value, with 32-bit wrap-around.
   */
  function EncodeLine(line: string, addr: int): (r: Encoded)
    ensures r.excessWarning <==> |Split(line)| > 2
    ensures r.word.Ok? ==> InInt32(r.word.value)
    ensures r.word.Err? ==> r.word.error.addr == addr
  {
    var tokens := Split(line);
    var word :=
      if tokens[0] == "" then Ok(0)
      else match Lookup(tokens[0])
        case None => Err(UnknownOpcode(tokens[0], addr))
        case Some(base) =>
          if |tokens| == 1 then Ok(base)
          else match ParseInt32(tokens[1])
            case Malformed => Err(InvalidOperand(tokens[1], addr))
            case Overflow => Err(OperandOverflow(tokens[1], addr))
            case Value(n) => Ok(Wrap32(base + n));
    Encoded(word, |tokens| > 2)
  }

  /** An empty line, or one starting with a space or tab, is the word 0 whatever follows. */
  lemma BlankMnemonicIsZero(line: string, addr: int)
    requires line == [] || IsSeparator(line[0])
    ensures EncodeLine(line, addr).word == Ok(0)
  {
    FirstTokenEmpty(line);
  }

  /** A known mnemonic alone encodes to its table value, with no warning. */
  lemma MnemonicAlone(mnemonic: string, addr: int)
    requires Lookup(mnemonic).Some?
    ensures EncodeLine(mnemonic, addr) == Encoded(Ok(Lookup(mnemonic).value), false)
  {
    MnemonicHasNoSeparator(mnemonic);
    SplitWord(mnemonic);
  }

  /**
   * The written form "MNEMONIC OPERAND" of any known mnemonic and any Int32
   * operand encodes to base plus operand, wrapped to 32 bits (so exactly the
   * sum whenever the sum fits in an Int32).
   */
  lemma MnemonicWithOperand(mnemonic: string, operand: int, addr: int)
    requires Lookup(mnemonic).Some? && InInt32(operand)
    ensures var base := Lookup(mnemonic).value;
      EncodeLine(mnemonic + " " + Format(operand), addr) == Encoded(Ok(Wrap32(base + operand)), false)
  {
    var line := mnemonic + " " + Format(operand);
    InstructionSplits(mnemonic, operand);
    assert ParseInt32(Format(operand)) == Value(operand) by {
      FormatRoundTrip(operand);
    }
    OperandAdded(line, mnemonic, Format(operand), operand, addr);
  }

  /** "MNEMONIC OPERAND" splits into the mnemonic and the operand's text. */
  lemma InstructionSplits(mnemonic: string, operand: int)
    requires Lookup(mnemonic).Some?
    ensures Split(mnemonic + " " + Format(operand)) == [mnemonic, Format(operand)]
  {
    MnemonicHasNoSeparator(mnemonic);
    FormatHasNoBlank(operand);
    SplitInstruction(mnemonic, Format(operand));
  }

  /**
   * A line of exactly two tokens, a known mnemonic and an integer, encodes to
   * base plus operand wrapped to 32 bits.
   */
  lemma OperandAdded(line: string, mnemonic: string, text: string, operand: int, addr: int)
    requires Split(line) == [mnemonic, text] && Lookup(mnemonic).Some? && ParseInt32(text) == Value(operand)
    ensures EncodeLine(line, addr) == Encoded(Ok(Wrap32(Lookup(mnemonic).value + operand)), false)
  {
  }

  lemma MnemonicHasNoSeparator(mnemonic: string)
    requires Lookup(mnemonic).Some?
    ensures NoSeparator(mnemonic) && mnemonic != ""
  {
  }

  /** A non-empty first token outside the table is fatal, naming that token and the address. */
  lemma UnknownMnemonicIsFatal(line: string, addr: int)
    requires Split(line)[0] != "" && Lookup(Split(line)[0]).None?
    ensures EncodeLine(line, addr).word == Err(UnknownOpcode(Split(line)[0], addr))
  {
  }

  /**
   * After a known mnemonic, a second token that is not an integer is fatal
   * (InvalidOperand), and one outside Int32 range crashes (OperandOverflow).
   */
  lemma BadOperandIsFatal(line: string, addr: int)
    requires |Split(line)| >= 2 && Lookup(Split(line)[0]).Some?
    requires !ParseInt32(Split(line)[1]).Value?
    ensures ParseInt32(Split(line)[1]).Malformed? ==>
      EncodeLine(line, addr).word == Err(InvalidOperand(Split(line)[1], addr))
    ensures ParseInt32(Split(line)[1]).Overflow? ==>
      EncodeLine(line, addr).word == Err(OperandOverflow(Split(line)[1], addr))
  {
  }

  /** Tokens after the second draw the warning but never change the word. */
  lemma ExcessTokensIgnored(line: string, other: string, addr: int)
    requires |Split(line)| > 2 && |Split(other)| == 2
    requires Split(line)[..2] == Split(other)
    ensures EncodeLine(line, addr).excessWarning && !EncodeLine(other, addr).excessWarning
    ensures EncodeLine(line, addr).word == EncodeLine(other, addr).word
  {
    assert Split(line)[0] == Split(other)[0] && Split(line)[1] == Split(other)[1];
  }

  /** "TAKE -5" is 1000 + (-5). */
  lemma NegativeOperandExample()
    ensures EncodeLine("TAKE -5", 0).word == Ok(995)
  {
    assert "TAKE" + " " + Format(-5) == "TAKE -5" by {
      FormatExamples();
    }
    assert EncodeLine("TAKE" + " " + Format(-5), 0).word == Ok(Wrap32(1000 + -5)) by {
      MnemonicWithOperand("TAKE", -5, 0);
    }
  }

  /** "TAKE  5" (two spaces) has operand "" and is fatal, after the excess-token warning. */
  lemma DoubleSpaceExample(addr: int)
    ensures EncodeLine("TAKE  5", addr) == Encoded(Err(InvalidOperand("", addr)), true)
  {
    SplitDoubleSpaceExample();
  }

  /** " TAKE 5" (leading space) has an empty mnemonic and is the word 0. */
  lemma LeadingSpaceExample()
    ensures EncodeLine(" TAKE 5", 0) == Encoded(Ok(0), true)
  {
    SplitLeadingSpaceExample();
  }

  /**
   * The addition is unchecked: HLT with the largest Int32 operand wraps round
   * to a negative word instead of failing.
   */
  lemma WrapAroundExample(line: string, addr: int)
    requires |Split(line)| == 2 && Split(line)[0] == "HLT" && ParseInt32(Split(line)[1]) == Value(Int32Max)
    ensures EncodeLine(line, addr).word == Ok(Int32Min + 9999)
  {
    OperandAdded(line, "HLT", Split(line)[1], Int32Max, addr);
    WrapExample();
  }
}
