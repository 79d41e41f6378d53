/**
 * The Hamming(7,4) parity codec of the Hamming visualizer: an encoder that
 * places four data bits at positions 3, 5, 6, 7 and computes three parity bits
 * by its own fixed formulas, and a decoder that recomputes three checks,
 * forms the error position and flips that bit.
 *
 * The encoder's formulas (p1 = d1^d3, p2 = d1^d2, p4 = d2^d3^d4) are not the
 * ones the decoder checks, so encoding and then decoding is not the identity
 * in general; `DecodeEncoded` below says exactly when it is, and
 * `IntendedCodeword` is the encoder whose words the decoder inverts.
 */
module HammingCode {
  import opened Common

  datatype Action = Input | Assign | Parity | Complete | Error | Received | Check | Valid | ErrorFound | Corrected

  /**
   * One trace record: the action tag, the code word shown at that moment
   * (with '?' for parity bits not yet computed), the parity bit just computed
   * as (position, value), and the error position for an `ErrorFound` step.
   */
  datatype HammingStep = HammingStep(
    action: Action,
    encoded: Option<string>,
    parityBit: Option<(nat, int)>,
    position: Option<nat>)

  function Plain(a: Action): (r: HammingStep) { HammingStep(a, None, None, None) }

  /** The input field only admits the characters '0' and '1'. */
  predicate IsBinary(s: string)
  {
    forall i :: 0 <= i < |s| ==> s[i] == '0' || s[i] == '1'
  }

  /** `Number(c)` of a binary digit. */
  function Bit(c: char): (r: int) { if c == '1' then 1 else 0 }

  function BitChar(b: int): (r: char) { if b == 1 then '1' else '0' }

  /** `^` on two bits. */
  function Xor(a: int, b: int): (r: int) { if a == b then 0 else 1 }

  function Show(code: seq<int>): (r: string)
    ensures |r| == |code|
  {
    seq(|code|, i requires 0 <= i < |code| => BitChar(code[i]))
  }

  // ---------------------------------------------------------------- encoder

  /** The code word the encoder produces for four data bits. */
  function Codeword(d: string): (r: string)
    requires |d| == 4
  {
    var d1, d2, d3, d4 := Bit(d[0]), Bit(d[1]), Bit(d[2]), Bit(d[3]);
    Show([Xor(d1, d3), Xor(d1, d2), d1, Xor(Xor(d2, d3), d4), d2, d3, d4])
  }

  method HammingEncode(dataBits: string) returns (encoded: string, steps: seq<HammingStep>)
    requires IsBinary(dataBits)
    ensures |dataBits| != 4 ==> encoded == "" && steps == [Plain(Error)]
    ensures |dataBits| == 4 ==>
      && encoded == Codeword(dataBits) && |encoded| == 7
      // the trace: input, assign, three parity steps, complete
      && |steps| == 6
      && steps[0].action == Input && steps[1].action == Assign
      && steps[2].action == Parity && steps[3].action == Parity && steps[4].action == Parity
      && steps[5].action == Complete
      && steps[2].parityBit == Some((1, Bit(encoded[0])))
      && steps[3].parityBit == Some((2, Bit(encoded[1])))
      && steps[4].parityBit == Some((4, Bit(encoded[3])))
      && steps[4].encoded == Some(encoded) && steps[5].encoded == Some(encoded)
  {
    if |dataBits| != 4 {
      encoded := "";
      steps := [Plain(Error)];
      return;
    }
    var bits := seq(4, i requires 0 <= i < 4 => Bit(dataBits[i]));
    steps := [Plain(Input)];

    var code := new int[][0, 0, bits[0], 0, bits[1], bits[2], bits[3]];
    ghost var placed := code[..];
    assert placed == [0, 0, bits[0], 0, bits[1], bits[2], bits[3]];
    var shown := "??" + Show(code[2..]);
    steps := steps + [HammingStep(Assign, Some(shown), None, None)];

    var p1 := Xor(bits[0], bits[2]);
    code[0] := p1;
    steps := steps + [HammingStep(Parity, Some(Show(code[..])), Some((1, p1)), None)];

    var p2 := Xor(bits[0], bits[1]);
    code[1] := p2;
    steps := steps + [HammingStep(Parity, Some(Show(code[..])), Some((2, p2)), None)];

    var p4 := Xor(Xor(bits[1], bits[2]), bits[3]);
    code[3] := p4;
    steps := steps + [HammingStep(Parity, Some(Show(code[..])), Some((4, p4)), None)];

    encoded := Show(code[..]);
    steps := steps + [HammingStep(Complete, Some(encoded), None, None)];
    assert code[..] == placed[0 := p1][1 := p2][3 := p4];
    ParityPlaced(bits[0], bits[1], bits[2], bits[3], p1, p2, p4);
    CodewordLayout(dataBits);
  }

  /** Writing the parity bits into the slots the encoder left as 0. */
  lemma ParityPlaced(d1: int, d2: int, d3: int, d4: int, p1: int, p2: int, p4: int)
    ensures [0, 0, d1, 0, d2, d3, d4][0 := p1][1 := p2][3 := p4] == [p1, p2, d1, p4, d2, d3, d4]
  {
  }

  /**
   * The code word's layout: the data bits d1..d4 sit at positions 3, 5, 6, 7
   * and the parity bits at positions 1, 2, 4 follow the encoder's formulas.
   */
  lemma CodewordLayout(d: string)
    requires |d| == 4 && IsBinary(d)
    ensures var c := Codeword(d);
      && |c| == 7 && IsBinary(c)
      && c[2] == d[0] && c[4] == d[1] && c[5] == d[2] && c[6] == d[3]
      && Bit(c[0]) == Xor(Bit(d[0]), Bit(d[2]))
      && Bit(c[1]) == Xor(Bit(d[0]), Bit(d[1]))
      && Bit(c[3]) == Xor(Xor(Bit(d[1]), Bit(d[2])), Bit(d[3]))
  {
  }

  // ---------------------------------------------------------------- decoder

  /** The three checks over positions {1,3,5,7}, {2,3,6,7} and {4,5,6,7}. */
  function Check1(w: string): (r: int) requires |w| == 7
  { Xor(Xor(Xor(Bit(w[0]), Bit(w[2])), Bit(w[4])), Bit(w[6])) }

  function Check2(w: string): (r: int) requires |w| == 7
  { Xor(Xor(Xor(Bit(w[1]), Bit(w[2])), Bit(w[5])), Bit(w[6])) }

  function Check4(w: string): (r: int) requires |w| == 7
  { Xor(Xor(Xor(Bit(w[3]), Bit(w[4])), Bit(w[5])), Bit(w[6])) }

  /** The error position the decoder reports: 0 for "no error", else a 1-based bit position. */
  function Syndrome(w: string): (e: int)
    requires |w| == 7
    ensures 0 <= e <= 7
  {
    Check1(w) + 2 * Check2(w) + 4 * Check4(w)
  }

  /** `w` with the bit at 1-based position `pos` inverted. */
  function Flip(w: string, pos: int): (r: string)
    requires 1 <= pos <= |w|
  {
    w[pos - 1 := if w[pos - 1] == '0' then '1' else '0']
  }

  /** The word the decoder returns for a 7-bit input. */
  function Correct(w: string): (r: string)
    requires |w| == 7
  {
    if Syndrome(w) == 0 then w else Flip(w, Syndrome(w))
  }

  /** The decoder's first four records: the received word and the three checks. */
  const Checked := [Plain(Received), Plain(Check), Plain(Check), Plain(Check)]

  /** The decoder's trace: then "valid", or "error found" at `errorPos` and the corrected word. */
  function DecodeTrace(errorPos: nat, corrected: string): (r: seq<HammingStep>)
  {
    Checked + if errorPos == 0 then [Plain(Valid)]
              else [HammingStep(ErrorFound, None, None, Some(errorPos)), HammingStep(Corrected, Some(corrected), None, None)]
  }

  method HammingDecode(codeBits: string) returns (corrected: string, errorPos: int, steps: seq<HammingStep>)
    requires IsBinary(codeBits)
    ensures |codeBits| != 7 ==> corrected == "" && errorPos == 0 && steps == [Plain(Error)]
    ensures |codeBits| == 7 ==>
      && errorPos == Check1(codeBits) + 2 * Check2(codeBits) + 4 * Check4(codeBits)
      && corrected == Correct(codeBits)
      && steps == DecodeTrace(errorPos, corrected)
  {
    if |codeBits| != 7 {
      corrected, errorPos, steps := "", 0, [Plain(Error)];
      return;
    }
    var bits := seq(7, i requires 0 <= i < 7 => Bit(codeBits[i]));
    steps := [Plain(Received)];
    errorPos := 0;

    var check1 := Xor(Xor(Xor(bits[0], bits[2]), bits[4]), bits[6]);
    steps := steps + [Plain(Check)];
    if check1 == 1 { errorPos := errorPos + 1; }

    var check2 := Xor(Xor(Xor(bits[1], bits[2]), bits[5]), bits[6]);
    steps := steps + [Plain(Check)];
    if check2 == 1 { errorPos := errorPos + 2; }

    var check4 := Xor(Xor(Xor(bits[3], bits[4]), bits[5]), bits[6]);
    steps := steps + [Plain(Check)];
    if check4 == 1 { errorPos := errorPos + 4; }
    assert errorPos == Syndrome(codeBits);
    assert steps == Checked;

    var fixed := new int[7](i requires 0 <= i < 7 => bits[i]);
    assert fixed[..] == bits;
    if errorPos == 0 {
      steps := steps + [Plain(Valid)];
      corrected := Show(fixed[..]);
    } else {
      steps := steps + [HammingStep(ErrorFound, None, None, Some(errorPos))];
      fixed[errorPos - 1] := if fixed[errorPos - 1] == 0 then 1 else 0;
      assert fixed[..] == bits[errorPos - 1 := if bits[errorPos - 1] == 0 then 1 else 0];
      corrected := Show(fixed[..]);
      steps := steps + [HammingStep(Corrected, Some(corrected), None, None)];
      assert steps == Checked + [HammingStep(ErrorFound, None, None, Some(errorPos)),
                                 HammingStep(Corrected, Some(corrected), None, None)];
    }
    ShowFixed(codeBits, bits, fixed[..]);
  }

  /** The bit array the decoder shows is the corrected word. */
  lemma ShowFixed(w: string, bits: seq<int>, fixed: seq<int>)
    requires |w| == 7 && IsBinary(w) && bits == seq(7, i requires 0 <= i < 7 => Bit(w[i]))
    requires Syndrome(w) == 0 ==> fixed == bits
    requires Syndrome(w) != 0 ==> fixed == bits[Syndrome(w) - 1 := if bits[Syndrome(w) - 1] == 0 then 1 else 0]
    ensures Show(fixed) == Correct(w)
  {
    assert Show(bits) == w;
  }

  /** The decoder changes exactly the bit at the reported position, and nothing when it is 0. */
  lemma CorrectChangesOneBit(w: string)
    requires |w| == 7 && IsBinary(w)
    ensures |Correct(w)| == 7 && IsBinary(Correct(w))
    ensures forall i :: 0 <= i < 7 ==> (Correct(w)[i] != w[i] <==> i == Syndrome(w) - 1)
  {
  }

  // ---------------------------------------------------------------- properties

  /**
   * Single-error correction: for any word whose three checks are 0, flipping
   * any one bit makes the decoder report exactly that position and return
   * the original word.
   */
  lemma SingleFlipCorrected(w: string, i: int)
    requires |w| == 7 && IsBinary(w) && Syndrome(w) == 0
    requires 1 <= i <= 7
    ensures Syndrome(Flip(w, i)) == i
    ensures Correct(Flip(w, i)) == w
  {
    var f := Flip(w, i);
    assert Check1(w) == 0 && Check2(w) == 0 && Check4(w) == 0;
    assert Flip(f, i) == w;
  }

  /** The word the visualizer offers as an error-free example has all checks 0. */
  lemma ExampleWordIsValid()
    ensures Syndrome("1011010") == 0
    ensures Syndrome(Flip("1011010", 3)) == 3 && Flip("1011010", 3) == "1001010"
    ensures Syndrome(Flip("1011010", 5)) == 5 && Flip("1011010", 5) == "1011110"
  {
    SingleFlipCorrected("1011010", 3);
    SingleFlipCorrected("1011010", 5);
  }

  /** The data bits read back from positions 3, 5, 6, 7. */
  function DataBits(w: string): (r: string)
    requires |w| == 7
  {
    [w[2], w[4], w[5], w[6]]
  }

  /**
   * Decoding an encoded word: the first and second checks both equal
   * d2^d3^d4 and the third is 0, so the reported position is 0 when
   * d2^d3^d4 = 0 and 3 otherwise, in which case the decoder flips d1.
   */
  lemma DecodeEncoded(d: string)
    requires |d| == 4 && IsBinary(d)
    ensures var parity := Xor(Xor(Bit(d[1]), Bit(d[2])), Bit(d[3]));
      && Syndrome(Codeword(d)) == 3 * parity
      && (parity == 0 ==> DataBits(Correct(Codeword(d))) == d)
      && (parity == 1 ==> DataBits(Correct(Codeword(d))) == d[0 := if d[0] == '0' then '1' else '0'])
  {
    var c := Codeword(d);
    assert Bit(c[0]) == Xor(Bit(d[0]), Bit(d[2]));
    assert Bit(c[1]) == Xor(Bit(d[0]), Bit(d[1]));
    assert Bit(c[3]) == Xor(Xor(Bit(d[1]), Bit(d[2])), Bit(d[3]));
    assert c[2] == d[0] && c[4] == d[1] && c[5] == d[2] && c[6] == d[3];
  }

  /** Encoding is not inverted by decoding: 1011 survives, 0100 does not. */
  lemma RoundTripExamples()
    ensures Codeword("1011") == "0110011" && Syndrome("0110011") == 0
    ensures Codeword("0100") == "0101100" && Syndrome("0101100") == 3
    ensures DataBits(Correct(Codeword("0100"))) == "1100"
  {
    DecodeEncoded("1011");
    DecodeEncoded("0100");
  }

  // ------------------------------------------------------- intended encoder

  /**
   * The code word whose parity bits make the decoder's three checks 0: each
   * parity bit is the xor of the data bits in its check's other positions,
   * p1 = d1^d2^d4 (positions 3, 5, 7), p2 = d1^d3^d4 (3, 6, 7) and
   * p4 = d2^d3^d4 (5, 6, 7).
   */
  function IntendedCodeword(d: string): (r: string)
    requires |d| == 4
  {
    var d1, d2, d3, d4 := Bit(d[0]), Bit(d[1]), Bit(d[2]), Bit(d[3]);
    Show([Xor(Xor(d1, d2), d4), Xor(Xor(d1, d3), d4), d1, Xor(Xor(d2, d3), d4), d2, d3, d4])
  }

  /** The intended code word carries the data bits at positions 3, 5, 6, 7 and passes every check. */
  lemma IntendedRoundTrip(d: string)
    requires |d| == 4 && IsBinary(d)
    ensures |IntendedCodeword(d)| == 7 && IsBinary(IntendedCodeword(d))
    ensures Syndrome(IntendedCodeword(d)) == 0
    ensures Correct(IntendedCodeword(d)) == IntendedCodeword(d) && DataBits(IntendedCodeword(d)) == d
  {
    var c := IntendedCodeword(d);
    assert c[2] == d[0] && c[4] == d[1] && c[5] == d[2] && c[6] == d[3];
  }

  /**
   * Single-error correction for the intended encoder: whichever one bit of
   * the code word is flipped, the decoder reports that position and its
   * data bits are the original four.
   */
  lemma IntendedSingleFlipCorrected(d: string, i: int)
    requires |d| == 4 && IsBinary(d) && 1 <= i <= 7
    ensures Syndrome(Flip(IntendedCodeword(d), i)) == i
    ensures DataBits(Correct(Flip(IntendedCodeword(d), i))) == d
  {
    IntendedRoundTrip(d);
    SingleFlipCorrected(IntendedCodeword(d), i);
  }

  /** With the intended encoder 0100 becomes 1001100, which the decoder takes back to 0100. */
  lemma IntendedExample()
    ensures IntendedCodeword("0100") == "1001100" && Syndrome("1001100") == 0
    ensures DataBits(Correct(IntendedCodeword("0100"))) == "0100"
  {
    IntendedRoundTrip("0100");
  }
}
