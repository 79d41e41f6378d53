/**
 * Shannon-Fano-Elias code assignment of the algorithm library
 * (`shannonFanoEliasAlgorithm`). Symbols are sorted by descending
 * probability (stably); a running cumulative probability is carried along;
 * each symbol gets the length L = ceil(-log2 p) and, as its code, the binary
 * digits of floor((Fprev + p/2) * 2^L) left-padded with '0' to L characters.
 *
 * Probabilities are exact reals. ceil(-log2 p) is characterised without
 * logarithms as the least L >= 0 with p * 2^L >= 1, which is the same number
 * for 0 < p <= 1.
 */
module ShannonFanoElias {
  import opened Common

  datatype SfeStep = SfeStep(ch: string, prob: real, cumulativeProb: real, codeLength: nat, code: string)

  /** 2^n as an exact real (`Math.pow(2, n)`). */
  function Pow2(n: nat): (r: real)
    ensures r >= n as real + 1.0
  {
    if n == 0 then 1.0 else 2.0 * Pow2(n - 1)
  }

  /** The exact product of two reals. */
  function Times(a: real, b: real): (r: real) { a * b }

  lemma TimesNonNegative(a: real, b: real)
    requires a >= 0.0 && b >= 0.0
    ensures Times(a, b) >= 0.0
  {}

  lemma TimesBelow(a: real, b: real)
    requires 0.0 <= a < 1.0 && b > 0.0
    ensures Times(a, b) < b
  {
    assert (1.0 - a) * b > 0.0;
  }

  // ---------------------------------------------------------------- code length

  /** The least L >= l with 2^L >= q. */
  function CodeLengthFrom(q: real, l: nat): (r: nat)
    decreases q.Floor - l
  {
    if Pow2(l) >= q then l else CodeLengthFrom(q, l + 1)
  }

  /** `Math.ceil(-Math.log2(p))`: the least L with 2^L >= 1/p. */
  function CodeLength(p: real): (r: nat)
    requires 0.0 < p
  {
    CodeLengthFrom(1.0 / p, 0)
  }

  lemma {:induction false} CodeLengthFromLeast(q: real, l: nat)
    ensures l <= CodeLengthFrom(q, l)
    ensures Pow2(CodeLengthFrom(q, l)) >= q
    ensures forall j :: l <= j < CodeLengthFrom(q, l) ==> Pow2(j) < q
    decreases q.Floor - l
  {
    if Pow2(l) < q {
      CodeLengthFromLeast(q, l + 1);
    }
  }

  lemma LiftsToOne(p: real, x: real)
    requires 0.0 < p
    ensures Times(p, x) >= 1.0 <==> x >= 1.0 / p
  {
    var q := 1.0 / p;
    assert q * p == 1.0;
    assert (x - q) * p == p * x - 1.0;
    if x >= q {
      assert (x - q) * p >= 0.0;
    } else {
      assert (q - x) * p > 0.0;
    }
  }

  /**
   * L is the least length whose scale 2^L lifts p to at least 1, which is
   * ceil(-log2 p); L = 0 exactly when p >= 1.
   */
  lemma CodeLengthLeast(p: real)
    requires 0.0 < p
    ensures Times(p, Pow2(CodeLength(p))) >= 1.0
    ensures forall j :: 0 <= j < CodeLength(p) ==> Times(p, Pow2(j)) < 1.0
    ensures CodeLength(p) == 0 <==> p >= 1.0
  {
    CodeLengthFromLeast(1.0 / p, 0);
    LiftsToOne(p, Pow2(CodeLength(p)));
    forall j | 0 <= j < CodeLength(p) ensures Times(p, Pow2(j)) < 1.0 {
      LiftsToOne(p, Pow2(j));
    }
    LiftsToOne(p, 1.0);
  }

  // ---------------------------------------------------------------- binary digits

  function Digit(b: nat): (r: char) requires b < 2 { if b == 0 then '0' else '1' }

  /** `n.toString(2)`: the binary digits of n, most significant first, "0" for zero. */
  function Binary(n: nat): (s: string)
    ensures |s| >= 1
  {
    if n < 2 then [Digit(n)] else Binary(n / 2) + [Digit(n % 2)]
  }

  /** The number a string of binary digits denotes. */
  function Value(s: string): (r: nat)
  {
    if s == [] then 0 else 2 * Value(s[..|s| - 1]) + (if s[|s| - 1] == '1' then 1 else 0)
  }

  predicate IsBits(s: string)
  {
    forall i :: 0 <= i < |s| ==> s[i] == '0' || s[i] == '1'
  }

  function Zeros(k: nat): (s: string)
    ensures |s| == k
  {
    if k == 0 then "" else Zeros(k - 1) + "0"
  }

  /** `s.padStart(l, '0')`. */
  function PadStart(s: string, l: nat): (r: string)
  {
    if |s| >= l then s else Zeros(l - |s|) + s
  }

  lemma {:induction false} BinaryValue(n: nat)
    ensures Value(Binary(n)) == n && IsBits(Binary(n))
    ensures n > 0 ==> Binary(n)[0] == '1'
  {
    if n >= 2 {
      BinaryValue(n / 2);
      var s := Binary(n);
      assert s[..|s| - 1] == Binary(n / 2);
    }
  }

  /** A number below 2^l (l >= 1) has at most l binary digits. */
  lemma {:induction false} BinaryLength(n: nat, l: nat)
    requires 1 <= l && (n as real) < Pow2(l)
    ensures |Binary(n)| <= l
  {
    if n >= 2 {
      BinaryLength(n / 2, l - 1);
    }
  }

  lemma {:induction false} ValueZerosPrefix(k: nat, s: string)
    ensures Value(Zeros(k) + s) == Value(s)
    decreases |s|
  {
    if s == [] {
      assert Zeros(k) + s == Zeros(k);
      ZerosValue(k);
    } else {
      var t := Zeros(k) + s;
      assert t[..|t| - 1] == Zeros(k) + s[..|s| - 1];
      ValueZerosPrefix(k, s[..|s| - 1]);
    }
  }

  lemma {:induction false} ZerosValue(k: nat)
    ensures Value(Zeros(k)) == 0 && IsBits(Zeros(k))
  {
    if k > 0 {
      assert Zeros(k)[..k - 1] == Zeros(k - 1);
      ZerosValue(k - 1);
    }
  }

  /** Padding keeps the value and the digits, and makes the string at least l long. */
  lemma PadStartValue(s: string, l: nat)
    requires IsBits(s)
    ensures Value(PadStart(s, l)) == Value(s) && IsBits(PadStart(s, l))
    ensures |PadStart(s, l)| == if |s| >= l then |s| else l
  {
    if |s| < l {
      ValueZerosPrefix(l - |s|, s);
      ZerosValue(l - |s|);
    }
  }

  // ---------------------------------------------------------------- the coder

  /** F = Fprev + p/2 for the symbol at index k of the sorted list. */
  function Midpoint(sorted: seq<Symbol>, k: nat): (r: real)
    requires k < |sorted|
  {
    Sum(sorted[..k], Prob) + sorted[k].prob / 2.0
  }

  /** `Math.floor(F * Math.pow(2, L)).toString(2).padStart(L, '0')`. */
  function CodeFor(f: real, l: nat): (r: string)
    requires f >= 0.0
  {
    TimesNonNegative(f, Pow2(l));
    PadStart(Binary(Times(f, Pow2(l)).Floor as nat), l)
  }

  predicate ValidProbabilities(symbols: seq<Symbol>)
  {
    forall i :: 0 <= i < |symbols| ==> 0.0 < symbols[i].prob <= 1.0
  }

  lemma SortedValid(symbols: seq<Symbol>)
    requires ValidProbabilities(symbols)
    ensures ValidProbabilities(SortDescending(symbols))
  {
    var sorted := SortDescending(symbols);
    assert forall i :: 0 <= i < |sorted| ==> sorted[i] in multiset(symbols);
  }

  lemma MidpointNonNegative(sorted: seq<Symbol>, k: nat)
    requires ValidProbabilities(sorted) && k < |sorted|
    ensures Midpoint(sorted, k) >= 0.0
  {
    SumNonNegative(sorted[..k], Prob);
  }

  /**
   * The step for the symbol at index k: its character and probability, the
   * cumulative probability up to and including it, L = ceil(-log2 p), and
   * the code of its midpoint F with L digits.
   */
  predicate Describes(sorted: seq<Symbol>, k: nat, st: SfeStep)
    requires ValidProbabilities(sorted) && k < |sorted|
  {
    MidpointNonNegative(sorted, k);
    && st.ch == sorted[k].ch && st.prob == sorted[k].prob
    && st.cumulativeProb == Sum(sorted[..k + 1], Prob)
    && st.codeLength == CodeLength(sorted[k].prob)
    && st.code == CodeFor(Midpoint(sorted, k), st.codeLength)
  }

  /** The library's `shannonFanoEliasAlgorithm`. */
  method ShannonFanoEliasCodes(symbols: seq<Symbol>) returns (steps: seq<SfeStep>)
    requires ValidProbabilities(symbols)
    ensures ValidProbabilities(SortDescending(symbols))
    ensures |steps| == |symbols|
    ensures forall k :: 0 <= k < |steps| ==> Describes(SortDescending(symbols), k, steps[k])
  {
    var sorted := SortDescending(symbols);
    SortedValid(symbols);
    steps := [];
    var cumulativeProb := 0.0;
    for i := 0 to |sorted|
      invariant |steps| == i
      invariant cumulativeProb == Sum(sorted[..i], Prob)
      invariant forall k :: 0 <= k < i ==> Describes(sorted, k, steps[k])
    {
      var symbol := sorted[i];
      var prob := symbol.prob;
      var prevCumulative := cumulativeProb;
      cumulativeProb := cumulativeProb + prob;
      SumPrefix(sorted, i, Prob);

      var f := prevCumulative + prob / 2.0;
      MidpointNonNegative(sorted, i);
      var codeLength := CodeLength(prob);
      TimesNonNegative(f, Pow2(codeLength));
      var code := PadStart(Binary(Times(f, Pow2(codeLength)).Floor as nat), codeLength);
      var st := SfeStep(symbol.ch, prob, cumulativeProb, codeLength, code);
      assert Describes(sorted, i, st);
      steps := steps + [st];
    }
  }

  // ---------------------------------------------------------------- properties

  /**
   * The code is a string of binary digits, at least L long, whose value is
   * floor(F * 2^L): read as the binary fraction 0.code it lies within 2^-L
   * below F.
   */
  lemma CodeMeaning(f: real, l: nat)
    requires f >= 0.0
    ensures IsBits(CodeFor(f, l)) && |CodeFor(f, l)| >= l
    ensures Value(CodeFor(f, l)) as real <= Times(f, Pow2(l)) < Value(CodeFor(f, l)) as real + 1.0
  {
    TimesNonNegative(f, Pow2(l));
    var n := Times(f, Pow2(l)).Floor;
    BinaryValue(n as nat);
    PadStartValue(Binary(n as nat), l);
  }

  /**
   * When F < 1, which holds for every symbol once the probabilities sum to
   * at most 1, the code is exactly L digits long (one digit "0" when L = 0).
   */
  lemma CodeLengthExact(f: real, l: nat)
    requires 0.0 <= f < 1.0
    ensures |CodeFor(f, l)| == if l == 0 then 1 else l
  {
    TimesNonNegative(f, Pow2(l));
    TimesBelow(f, Pow2(l));
    var n := Times(f, Pow2(l)).Floor;
    if l == 0 {
      assert n == 0;
    } else {
      BinaryLength(n as nat, l);
    }
  }

  /** Each midpoint is below the total probability, so below 1 when the total is at most 1. */
  lemma MidpointBelowTotal(sorted: seq<Symbol>, k: nat)
    requires ValidProbabilities(sorted) && k < |sorted|
    ensures Midpoint(sorted, k) < Sum(sorted, Prob)
  {
    SumAppend(sorted[..k + 1], sorted[k + 1..], Prob);
    assert sorted[..k + 1] + sorted[k + 1..] == sorted;
    SumNonNegative(sorted[k + 1..], Prob);
    SumPrefix(sorted, k, Prob);
  }

  /**
   * What a step means: F is the centre of the symbol's interval
   * [cumulative - p, cumulative); the code is binary digits whose value is
   * floor(F * 2^L); and when the probabilities sum to at most 1 the code has
   * exactly L digits (one when L = 0).
   */
  lemma StepMeaning(sorted: seq<Symbol>, k: nat, st: SfeStep)
    requires ValidProbabilities(sorted) && k < |sorted| && Describes(sorted, k, st)
    ensures Midpoint(sorted, k) == st.cumulativeProb - st.prob / 2.0
    ensures IsBits(st.code)
    ensures Value(st.code) as real <= Times(Midpoint(sorted, k), Pow2(st.codeLength)) < Value(st.code) as real + 1.0
    ensures Sum(sorted, Prob) <= 1.0 ==> |st.code| == if st.codeLength == 0 then 1 else st.codeLength
  {
    SumPrefix(sorted, k, Prob);
    MidpointNonNegative(sorted, k);
    CodeMeaning(Midpoint(sorted, k), st.codeLength);
    if Sum(sorted, Prob) <= 1.0 {
      MidpointBelowTotal(sorted, k);
      CodeLengthExact(Midpoint(sorted, k), st.codeLength);
    }
  }

  /** The alphabet 0.3, 0.3, 0.3, 0.1, already in descending order. */
  function Example(): (r: seq<Symbol>)
  {
    [Symbol("A", 0.3), Symbol("B", 0.3), Symbol("C", 0.3), Symbol("D", 0.1)]
  }

  lemma ExampleMidpoints()
    ensures ValidProbabilities(Example())
    ensures Midpoint(Example(), 2) == 0.75 && Midpoint(Example(), 3) == 0.95
  {
    var e := Example();
    assert e[..3][..2] == e[..2] && e[..2][..1] == e[..1] && e[..1][..0] == [];
    assert Sum(e[..1], Prob) == 0.3;
    assert Sum(e[..2], Prob) == 0.6;
    assert Sum(e[..3], Prob) == 0.9;
  }

  lemma ExampleCodes()
    ensures CodeLength(0.3) == 2 && CodeLength(0.1) == 4
    ensures CodeFor(0.75, 2) == "11" && CodeFor(0.95, 4) == "1111"
  {
    assert Pow2(2) == 4.0 && Pow2(4) == 16.0;
    assert CodeLengthFrom(1.0 / 0.3, 1) == 2;
    assert CodeLengthFrom(1.0 / 0.1, 3) == 4;
    assert CodeLengthFrom(1.0 / 0.1, 1) == 4;
    assert Times(0.75, 4.0).Floor == 3;
    assert Times(0.95, 16.0).Floor == 15;
    assert Binary(1) == "1" && Binary(3) == "11" && Binary(7) == "111" && Binary(15) == "1111";
  }

  /** The stable descending sort leaves the example alphabet as it is. */
  lemma ExampleSorted()
    ensures SortDescending(Example()) == Example()
  {
    var e := Example();
    assert e[..3][..2] == e[..2] && e[..2][..1] == e[..1] && e[..1][..0] == [];
    assert SortByKey(e[..1], NegProb) == e[..1];
    assert SortByKey(e[..2], NegProb) == e[..2];
    assert SortByKey(e[..3], NegProb) == e[..3];
    assert SortByKey(e, NegProb) == e;
  }

  /**
   * The codes need not be prefix-free: for probabilities 0.3, 0.3, 0.3, 0.1,
   * which the descending sort leaves in place, the third symbol gets "11"
   * and the fourth "1111".
   */
  lemma NotPrefixFree(third: SfeStep, fourth: SfeStep)
    requires ValidProbabilities(Example())
    requires Describes(Example(), 2, third) && Describes(Example(), 3, fourth)
    ensures SortDescending(Example()) == Example()
    ensures third.code == "11" && fourth.code == "1111"
    ensures third.code == fourth.code[..2]
  {
    ExampleSorted();
    ExampleMidpoints();
    ExampleCodes();
  }
}
