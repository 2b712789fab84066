/**
 * The assembly loop: every memory address 0..999 receives the encoded source
 * line of the same index, or 0 when the input is shorter; the decimal text of
 * each word is appended to the output buffer in address order, and the first
 * fatal error abandons the buffer.
 */
module ImageBuilder {
  import opened Int32Text
  import opened Tokenizer
  import opened Encoder

  /** The number of memory cells of the JOHNNY2 machine. */
  const MemorySize: nat := 1000

  /** How a run of the assembly loop ends: the whole output buffer, or the first fatal error. */
  datatype Assembly = Success(image: seq<string>) | Failure(error: AsmError)

  /**
   * What the loop finds at each address: the encoding of the line of that
   * index, or the word 0 without warning where the input has no line.
   */
  function Encodings(jasm: seq<string>): (cells: seq<Encoded>)
    ensures |cells| == MemorySize
  {
    seq(MemorySize, a requires 0 <= a < MemorySize =>
      if a < |jasm| then EncodeLine(jasm[a], a) else Encoded(Ok(0), false))
  }

  /** Every error is reported at the address where it occurs. */
  predicate ErrorsAtOwnAddress(cells: seq<Encoded>) {
    forall a :: 0 <= a < |cells| && cells[a].word.Err? ==> cells[a].word.error.addr == a
  }

  lemma EncodingsErrorsAtOwnAddress(jasm: seq<string>)
    ensures ErrorsAtOwnAddress(Encodings(jasm))
  {
  }

  /** The outcome of the loop over the first `n` addresses. */
  function BuildUpTo(cells: seq<Encoded>, n: nat): (r: Assembly)
    requires n <= |cells|
    ensures r.Success? ==> |r.image| == n
  {
    if n == 0 then Success([])
    else match BuildUpTo(cells, n - 1)
      case Failure(e) => Failure(e)
      case Success(image) =>
        match cells[n - 1].word
        case Err(e) => Failure(e)
        case Ok(w) => Success(image + [Format(w)])
  }

  /** The outcome of assembling a whole program. */
  function Assembled(jasm: seq<string>): (r: Assembly)
    ensures r.Success? ==> |r.image| == MemorySize
  {
    BuildUpTo(Encodings(jasm), MemorySize)
  }

  /** The addresses below `n` that drew the excess-token warning, in increasing order. */
  function WarnedUpTo(cells: seq<Encoded>, n: nat): (w: seq<nat>)
    requires n <= |cells|
    ensures |w| <= n
    ensures forall i :: 0 <= i < |w| ==> w[i] < n && cells[w[i]].excessWarning
  {
    if n == 0 then []
    else
      var earlier := WarnedUpTo(cells, n - 1);
      if cells[n - 1].excessWarning then earlier + [n - 1] else earlier
  }

  /**
   * The assembly loop of the assembler's main routine. On success `r` holds
   * the full output buffer; on a fatal error it holds that error and no
   * buffer. `warnings` lists the addresses warned about before the loop
   * ended, the failing address included.
   */
  method Assemble(jasm: seq<string>) returns (r: Assembly, warnings: seq<nat>)
    ensures r == Assembled(jasm)
    ensures r.Failure? ==> 0 <= r.error.addr < MemorySize
    ensures warnings == WarnedUpTo(Encodings(jasm), if r.Success? then MemorySize else r.error.addr + 1)
  {
    ghost var cells := Encodings(jasm);
    var result: seq<string> := [];
    warnings := [];
    for i := 0 to MemorySize
      invariant BuildUpTo(cells, i) == Success(result)
      invariant warnings == WarnedUpTo(cells, i)
    {
      var compiledInstruction := 0;
      if i < |jasm| {
        var encoded := EncodeLine(jasm[i], i);
        assert encoded == cells[i];
        if encoded.excessWarning {
          warnings := warnings + [i];
        }
        match encoded.word
        case Err(e) =>
          FailureIsFinal(cells, i, MemorySize);
          return Failure(e), warnings;
        case Ok(w) =>
          compiledInstruction := w;
      }
      result := result + [Format(compiledInstruction)];
    }
    r := Success(result);
  }

  /** Once an address fails, the loop over any longer range fails with that same error. */
  lemma {:induction false} FailureIsFinal(cells: seq<Encoded>, addr: nat, n: nat)
    requires addr < n <= |cells|
    requires BuildUpTo(cells, addr).Success? && cells[addr].word.Err?
    ensures BuildUpTo(cells, n) == Failure(cells[addr].word.error)
  {
    if n > addr + 1 {
      FailureIsFinal(cells, addr, n - 1);
    }
  }

  /** The loop over `n` addresses succeeds exactly when no address below `n` fails. */
  lemma {:induction false} SuccessIffAllEncode(cells: seq<Encoded>, n: nat)
    requires n <= |cells|
    ensures BuildUpTo(cells, n).Success? <==> forall a :: 0 <= a < n ==> cells[a].word.Ok?
  {
    if n > 0 {
      SuccessIffAllEncode(cells, n - 1);
    }
  }

  /** On success the buffer has one entry per address, each the text of that address's word. */
  lemma {:induction false} ImageContents(cells: seq<Encoded>, n: nat)
    requires n <= |cells| && BuildUpTo(cells, n).Success?
    ensures |BuildUpTo(cells, n).image| == n
    ensures forall a :: 0 <= a < n ==>
      cells[a].word.Ok? && BuildUpTo(cells, n).image[a] == Format(cells[a].word.value)
  {
    if n > 0 {
      ImageContents(cells, n - 1);
    }
  }

  /** On failure the error is the one of the lowest failing address; every earlier address encoded. */
  lemma {:induction false} FailureIsFirstError(cells: seq<Encoded>, n: nat)
    requires n <= |cells| && BuildUpTo(cells, n).Failure?
    ensures exists k :: 0 <= k < n && cells[k].word == Err(BuildUpTo(cells, n).error) &&
                        forall a :: 0 <= a < k ==> cells[a].word.Ok?
  {
    var e := BuildUpTo(cells, n).error;
    if BuildUpTo(cells, n - 1).Failure? {
      assert BuildUpTo(cells, n - 1).error == e;
      FailureIsFirstError(cells, n - 1);
    } else {
      SuccessIffAllEncode(cells, n - 1);
      assert cells[n - 1].word == Err(e) && forall a :: 0 <= a < n - 1 ==> cells[a].word.Ok?;
    }
  }

  /** A whole program assembles exactly when every line below address 1000 encodes. */
  lemma AssembledIffLinesEncode(jasm: seq<string>)
    ensures Assembled(jasm).Success? <==>
      forall a :: 0 <= a < MemorySize && a < |jasm| ==> EncodeLine(jasm[a], a).word.Ok?
  {
    var cells := Encodings(jasm);
    SuccessIffAllEncode(cells, MemorySize);
    if !Assembled(jasm).Success? {
      var a :| 0 <= a < MemorySize && !cells[a].word.Ok?;
      assert a < |jasm| && !EncodeLine(jasm[a], a).word.Ok?;
    } else {
      forall a | 0 <= a < MemorySize && a < |jasm| ensures EncodeLine(jasm[a], a).word.Ok? {
        assert cells[a].word.Ok?;
      }
    }
  }

  /**
   * A successful assembly has exactly 1000 entries in address order: entry
   * `a` is the text of the word of line `a`, or "0" past the end of the input.
   */
  lemma AssembledImage(jasm: seq<string>)
    requires Assembled(jasm).Success?
    ensures |Assembled(jasm).image| == MemorySize
    ensures forall a :: 0 <= a < MemorySize && a < |jasm| ==>
      EncodeLine(jasm[a], a).word.Ok? &&
      Assembled(jasm).image[a] == Format(EncodeLine(jasm[a], a).word.value)
    ensures forall a :: |jasm| <= a < MemorySize ==> Assembled(jasm).image[a] == "0"
  {
    var cells := Encodings(jasm);
    var image := Assembled(jasm).image;
    ImageContents(cells, MemorySize);
    forall a | 0 <= a < MemorySize && a < |jasm|
      ensures EncodeLine(jasm[a], a).word.Ok? && image[a] == Format(EncodeLine(jasm[a], a).word.value)
    {
      assert cells[a] == EncodeLine(jasm[a], a);
    }
    assert Format(0) == "0";
    forall a | |jasm| <= a < MemorySize ensures image[a] == "0" {
      assert cells[a].word == Ok(0);
    }
  }

  /**
   * A failed assembly reports the error of the lowest address whose line does
   * not encode; all lines before it encode.
   */
  lemma AssembledFailure(jasm: seq<string>)
    requires Assembled(jasm).Failure?
    ensures var e := Assembled(jasm).error;
      0 <= e.addr < MemorySize && e.addr < |jasm| && EncodeLine(jasm[e.addr], e.addr).word == Err(e) &&
      forall a :: 0 <= a < e.addr ==> EncodeLine(jasm[a], a).word.Ok?
  {
    var cells := Encodings(jasm);
    FailureIsFirstError(cells, MemorySize);
    var k :| 0 <= k < MemorySize && cells[k].word == Err(Assembled(jasm).error) &&
      forall a :: 0 <= a < k ==> cells[a].word.Ok?;
    assert k < |jasm|;
    assert cells[k].word.error.addr == k;
    forall a | 0 <= a < k ensures EncodeLine(jasm[a], a).word.Ok? {
      assert cells[a].word.Ok?;
    }
  }

  /** The output buffer of a program whose lines encode to `words`: their texts, then "0" up to address 999. */
  function Padded(words: seq<int>): (image: seq<string>)
    requires |words| <= MemorySize
    ensures |image| == MemorySize
  {
    seq(MemorySize, a requires 0 <= a < MemorySize => if a < |words| then Format(words[a]) else "0")
  }

  /** A program of at most 1000 lines whose lines all encode assembles to their padded texts. */
  lemma AssembledFromWords(jasm: seq<string>, words: seq<int>)
    requires |jasm| <= MemorySize && |words| == |jasm|
    requires forall a :: 0 <= a < |jasm| ==> EncodeLine(jasm[a], a).word == Ok(words[a])
    ensures Assembled(jasm) == Success(Padded(words))
  {
    AssembledIffLinesEncode(jasm);
    AssembledImage(jasm);
    var image := Assembled(jasm).image;
    assert image == Padded(words) by {
      forall a | 0 <= a < MemorySize ensures image[a] == Padded(words)[a] {
      }
    }
  }

  /**
   * A program whose line `k` is the first not to encode fails with that
   * line's error, whatever the lines after it hold.
   */
  lemma AssembledFailsAt(jasm: seq<string>, k: nat)
    requires k < |jasm| && k < MemorySize && EncodeLine(jasm[k], k).word.Err?
    requires forall a :: 0 <= a < k ==> EncodeLine(jasm[a], a).word.Ok?
    ensures Assembled(jasm) == Failure(EncodeLine(jasm[k], k).word.error)
  {
    var cells := Encodings(jasm);
    SuccessIffAllEncode(cells, k);
    assert BuildUpTo(cells, k).Success? by {
      forall a | 0 <= a < k ensures cells[a].word.Ok? {
        assert cells[a] == EncodeLine(jasm[a], a);
      }
    }
    FailureIsFinal(cells, k, MemorySize);
  }

  /** The loop outcome depends only on the encodings it visits. */
  lemma {:induction false} SameEncodingsSameOutcome(cells: seq<Encoded>, other: seq<Encoded>, n: nat)
    requires n <= |cells| && n <= |other|
    requires forall a :: 0 <= a < n ==> cells[a].word == other[a].word
    ensures BuildUpTo(cells, n) == BuildUpTo(other, n)
  {
    if n > 0 {
      SameEncodingsSameOutcome(cells, other, n - 1);
      assert cells[n - 1].word == other[n - 1].word;
    }
  }

  /** Lines at index 1000 and beyond are never read. */
  lemma LinesPastMemoryIgnored(jasm: seq<string>)
    requires |jasm| > MemorySize
    ensures Assembled(jasm) == Assembled(jasm[..MemorySize])
  {
    SameEncodingsSameOutcome(Encodings(jasm), Encodings(jasm[..MemorySize]), MemorySize);
  }

  /** The warnings are exactly the addresses below `n` that drew one, in strictly increasing order. */
  lemma {:induction false} WarnedAddresses(cells: seq<Encoded>, n: nat)
    requires n <= |cells|
    ensures forall k :: 0 <= k < |WarnedUpTo(cells, n)| ==> WarnedUpTo(cells, n)[k] < n
    ensures forall a: nat :: a in WarnedUpTo(cells, n) <==> a < n && cells[a].excessWarning
    ensures forall j, k :: 0 <= j < k < |WarnedUpTo(cells, n)| ==>
      WarnedUpTo(cells, n)[j] < WarnedUpTo(cells, n)[k]
  {
    if n > 0 {
      WarnedAddresses(cells, n - 1);
    }
  }
}
