/**
 * The JOHNNY2 opcode table: a closed, case-sensitive mapping from the eleven
 * mnemonics to their base values, which are the multiples of 1000 from 0 to
 * 10000 in table order.
 */
module Opcodes {
  import opened Wrappers

  /** The mnemonics in table order; the k-th one has base value 1000 * k. */
  const Mnemonics: seq<string> :=
    ["DATA", "TAKE", "ADD", "SUB", "SAVE", "JMP", "TST", "INC", "DEC", "NULL", "HLT"]

  /** Looks a mnemonic up in the table; a miss is `None` (a KeyNotFoundException in the assembler). */
  function Lookup(mnemonic: string): (r: Option<int>)
    ensures r.Some? ==> 0 <= r.value <= 10000 && r.value % 1000 == 0
    ensures r.Some? ==> mnemonic in Mnemonics
  {
    match mnemonic
    case "DATA" => Some(0)
    case "TAKE" => Some(1000)
    case "ADD" => Some(2000)
    case "SUB" => Some(3000)
    case "SAVE" => Some(4000)
    case "JMP" => Some(5000)
    case "TST" => Some(6000)
    case "INC" => Some(7000)
    case "DEC" => Some(8000)
    case "NULL" => Some(9000)
    case "HLT" => Some(10000)
    case _ => None
  }

  /** The table has eleven pairwise distinct entries. */
  lemma MnemonicsDistinct()
    ensures |Mnemonics| == 11
    ensures forall i, j :: 0 <= i < j < |Mnemonics| ==> Mnemonics[i] != Mnemonics[j]
  {
  }

  /** Every listed mnemonic is found, with base value 1000 times its position. */
  lemma LookupTable(k: nat)
    requires k < |Mnemonics|
    ensures Lookup(Mnemonics[k]) == Some(1000 * k)
  {
  }

  /** A mnemonic is found exactly when it is one of the eleven listed ones. */
  lemma LookupClosed(mnemonic: string)
    ensures Lookup(mnemonic).Some? <==> mnemonic in Mnemonics
  {
    if mnemonic in Mnemonics {
      var k :| 0 <= k < |Mnemonics| && Mnemonics[k] == mnemonic;
      LookupTable(k);
    }
  }

  /** Different mnemonics never share a base value. */
  lemma LookupInjective(a: string, b: string)
    requires Lookup(a).Some? && Lookup(a) == Lookup(b)
    ensures a == b
  {
  }

  /** Lookup is case-sensitive: lower-case spellings are not in the table. */
  lemma LookupCaseSensitive()
    ensures Lookup("take") == None && Lookup("Take") == None && Lookup("hlt") == None
    ensures Lookup("") == None
  {
  }
}
