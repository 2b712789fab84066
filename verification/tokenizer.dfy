/**
 * The assembler's line split: `String.Split` on the two characters space and
 * tab, with no options, so every separator character ends a token and two
 * separators in a row, or one at either end, produce an empty token.
 */
module Tokenizer {

  predicate IsSeparator(c: char) {
    c == ' ' || c == '\t'
  }

  predicate NoSeparator(s: string) {
    forall i :: 0 <= i < |s| ==> !IsSeparator(s[i])
  }

  /** The separator characters of a line, in order. */
  function Separators(line: string): (seps: seq<char>)
    ensures forall k :: 0 <= k < |seps| ==> IsSeparator(seps[k])
  {
    if line == [] then []
    else if IsSeparator(line[0]) then [line[0]] + Separators(line[1..])
    else Separators(line[1..])
  }

  /** The tokens of a line: one more than it has separator characters, none containing a separator. */
  function Split(line: string): (tokens: seq<string>)
    ensures |tokens| == |Separators(line)| + 1
    ensures forall k :: 0 <= k < |tokens| ==> NoSeparator(tokens[k])
  {
    if line == [] then [""]
    else
      var rest := Split(line[1..]);
      if IsSeparator(line[0]) then [""] + rest
      else [[line[0]] + rest[0]] + rest[1..]
  }

  /** Puts tokens back together with the given separator characters between them. */
  function Rejoin(tokens: seq<string>, seps: seq<char>): string
    requires |tokens| == |seps| + 1
  {
    if seps == [] then tokens[0]
    else tokens[0] + [seps[0]] + Rejoin(tokens[1..], seps[1..])
  }

  lemma {:induction false} RejoinExtendFirst(c: char, tokens: seq<string>, seps: seq<char>)
    requires |tokens| == |seps| + 1
    ensures Rejoin([[c] + tokens[0]] + tokens[1..], seps) == [c] + Rejoin(tokens, seps)
  {
    var extended := [[c] + tokens[0]] + tokens[1..];
    assert extended[1..] == tokens[1..];
  }

  /** Splitting loses nothing: the tokens and the separators rebuild the line. */
  lemma {:induction false} SplitRejoin(line: string)
    ensures Rejoin(Split(line), Separators(line)) == line
  {
    if line != [] {
      var rest := Split(line[1..]);
      SplitRejoin(line[1..]);
      if IsSeparator(line[0]) {
        assert ([""] + rest)[1..] == rest;
      } else {
        RejoinExtendFirst(line[0], rest, Separators(line[1..]));
      }
    }
  }

  /** A separator-free prefix becomes the front of the first token. */
  lemma {:induction false} SplitAfterWord(word: string, s: string)
    requires NoSeparator(word)
    ensures Split(word + s) == [word + Split(s)[0]] + Split(s)[1..]
  {
    var tokens := Split(s);
    if word == [] {
      assert word + s == s && word + tokens[0] == tokens[0];
      assert tokens == [tokens[0]] + tokens[1..];
    } else {
      var line := word + s;
      assert line[1..] == word[1..] + s;
      SplitAfterWord(word[1..], s);
      var rest := Split(line[1..]);
      assert rest[0] == word[1..] + tokens[0] && rest[1..] == tokens[1..];
      assert !IsSeparator(line[0]);
      assert Split(line) == [[line[0]] + rest[0]] + rest[1..];
      assert [line[0]] + (word[1..] + tokens[0]) == word + tokens[0];
    }
  }

  /** Splitting is the inverse of rejoining separator-free tokens. */
  lemma {:induction false} RejoinSplit(tokens: seq<string>, seps: seq<char>)
    requires |tokens| == |seps| + 1
    requires forall k :: 0 <= k < |tokens| ==> NoSeparator(tokens[k])
    requires forall k :: 0 <= k < |seps| ==> IsSeparator(seps[k])
    ensures Split(Rejoin(tokens, seps)) == tokens
  {
    if seps == [] {
      SplitAfterWord(tokens[0], "");
      assert tokens[0] + "" == tokens[0];
    } else {
      var tail := Rejoin(tokens[1..], seps[1..]);
      RejoinSplit(tokens[1..], seps[1..]);
      var afterWord := [seps[0]] + tail;
      assert Rejoin(tokens, seps) == tokens[0] + afterWord;
      assert afterWord[1..] == tail;
      SplitAfterWord(tokens[0], afterWord);
      assert Split(afterWord) == [""] + Split(tail);
      assert tokens[0] + "" == tokens[0];
      assert tokens == [tokens[0]] + tokens[1..];
    }
  }

  /** A line without separators is a single token. */
  lemma SplitWord(word: string)
    requires NoSeparator(word)
    ensures Split(word) == [word]
  {
    RejoinSplit([word], []);
  }

  /** A mnemonic and an operand joined by one space split back into exactly those two tokens. */
  lemma SplitInstruction(mnemonic: string, operand: string)
    requires NoSeparator(mnemonic) && NoSeparator(operand)
    ensures Split(mnemonic + " " + operand) == [mnemonic, operand]
  {
    RejoinSplit([mnemonic, operand], [' ']);
    assert Rejoin([mnemonic, operand], [' ']) == mnemonic + " " + operand;
  }

  /** The first token is empty exactly when the line is empty or starts with a separator. */
  lemma FirstTokenEmpty(line: string)
    ensures Split(line)[0] == "" <==> line == [] || IsSeparator(line[0])
  {
  }

  /** Two separators in a row give an empty token between them. */
  lemma SplitDoubleSpaceExample()
    ensures Split("TAKE  5") == ["TAKE", "", "5"]
  {
    RejoinSplit(["TAKE", "", "5"], [' ', ' ']);
    assert Rejoin(["TAKE", "", "5"], [' ', ' ']) == "TAKE  5";
  }

  /** A leading separator gives an empty first token. */
  lemma SplitLeadingSpaceExample()
    ensures Split(" TAKE 5") == ["", "TAKE", "5"]
  {
    RejoinSplit(["", "TAKE", "5"], [' ', ' ']);
    assert Rejoin(["", "TAKE", "5"], [' ', ' ']) == " TAKE 5";
  }
}
