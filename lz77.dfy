/**
 * The sliding-window greedy matcher of the algorithm library
 * (`lempelZivCompress`): at each position it scans the window of up to 4096
 * preceding characters from its oldest start onwards, measures how far each
 * start agrees with the lookahead of up to 18 characters (never reading past
 * the end of the window), keeps the first strictly longest match, records
 * (position, offset, length, nextChar) and advances by length + 1.
 *
 * `ValidStep` says what a step is, independently of the loops: a genuine
 * match inside the window, longest, earliest among the longest, and the
 * character after it. `LempelZivCompress` is proved to produce a chain of
 * valid steps, and `ReplayRestoresText` shows that decoding them gives the text back.
 */
module Lz77 {
  import opened Common

  const WindowSize: nat := 4096
  const LookaheadSize: nat := 18

  datatype Lz77Step = Lz77Step(position: nat, offset: nat, length: nat, nextChar: string, dictionaryIndex: nat)

  /** `Math.max(0, position - windowSize)`. */
  function WindowStart(p: nat): (r: nat) { if p >= WindowSize then p - WindowSize else 0 }

  /** The length of the lookahead `text.substring(p, p + 18)`. */
  function Lim(text: string, p: nat): (r: nat)
    requires p <= |text|
  {
    Min(LookaheadSize, |text| - p)
  }

  /** The l characters starting at s equal those starting at p, and end before p. */
  ghost predicate IsMatch(text: string, s: nat, p: nat, l: nat)
  {
    s + l <= p && p + l <= |text| && l <= LookaheadSize && text[s..s + l] == text[p..p + l]
  }

  /** The inner `matchLength` loop: extend while inside the lookahead and the window and the characters agree. */
  function MatchFrom(text: string, s: nat, p: nat, m: nat): (r: nat)
    requires s <= p <= |text| && m <= Lim(text, p)
    decreases Lim(text, p) - m
  {
    if m < Lim(text, p) && s + m < p && text[s + m] == text[p + m] then MatchFrom(text, s, p, m + 1) else m
  }

  function CommonLen(text: string, s: nat, p: nat): (r: nat)
    requires s <= p <= |text|
  {
    MatchFrom(text, s, p, 0)
  }

  lemma {:induction false} MatchFromSpec(text: string, s: nat, p: nat, m: nat)
    requires s <= p <= |text| && m <= Lim(text, p)
    requires s + m <= p && text[s..s + m] == text[p..p + m]
    ensures m <= MatchFrom(text, s, p, m)
    ensures IsMatch(text, s, p, MatchFrom(text, s, p, m))
    ensures forall l: nat :: m <= l && IsMatch(text, s, p, l) ==> l <= MatchFrom(text, s, p, m)
    decreases Lim(text, p) - m
  {
    if m < Lim(text, p) && s + m < p && text[s + m] == text[p + m] {
      assert text[s..s + m + 1] == text[s..s + m] + [text[s + m]];
      assert text[p..p + m + 1] == text[p..p + m] + [text[p + m]];
      MatchFromSpec(text, s, p, m + 1);
    } else {
      LongerMatchExtends(text, s, p, m);
    }
  }

  /** A match longer than m agrees at offset m, inside the lookahead and before p. */
  lemma LongerMatchExtends(text: string, s: nat, p: nat, m: nat)
    requires p <= |text|
    ensures forall l: nat :: m < l && IsMatch(text, s, p, l) ==>
      m < Lim(text, p) && s + m < p && text[s + m] == text[p + m]
  {
    forall l: nat | m < l && IsMatch(text, s, p, l)
      ensures m < Lim(text, p) && s + m < p && text[s + m] == text[p + m]
    {
      assert text[s..s + l][m] == text[p..p + l][m];
    }
  }

  /** CommonLen is the longest match at start s. */
  lemma CommonLenLongest(text: string, s: nat, p: nat)
    requires s <= p <= |text|
    ensures IsMatch(text, s, p, CommonLen(text, s, p))
    ensures forall l: nat :: IsMatch(text, s, p, l) ==> l <= CommonLen(text, s, p)
  {
    MatchFromSpec(text, s, p, 0);
  }

  /**
   * A match of `length` characters at `position` that starts `offset`
   * characters back, inside the window, and ends before `position`
   * (no match is written as offset 0, length 0).
   */
  ghost predicate MatchAt(text: string, position: nat, offset: nat, length: nat)
  {
    && position < |text| && length <= Lim(text, position)
    && (length == 0 ==> offset == 0)
    && (length > 0 ==> 1 <= offset <= position - WindowStart(position) && IsMatch(text, position - offset, position, length))
  }

  /** No match that starts inside the window is longer. */
  ghost predicate LongestAt(text: string, position: nat, length: nat)
  {
    forall s: nat, l: nat :: WindowStart(position) <= s < position && IsMatch(text, s, position, l) ==> l <= length
  }

  /** Among the longest matches the chosen one starts first (it has the largest offset). */
  ghost predicate EarliestAt(text: string, position: nat, offset: nat, length: nat)
  {
    length > 0 && offset <= position ==>
      forall s: nat :: WindowStart(position) <= s < position - offset ==> !IsMatch(text, s, position, length)
  }

  /** The part of a step a decoder relies on: a match followed by the next character ('' at the end). */
  ghost predicate Decodable(text: string, st: Lz77Step)
  {
    && MatchAt(text, st.position, st.offset, st.length)
    && st.nextChar == (if st.position + st.length < |text| then [text[st.position + st.length]] else "")
  }

  /** What one step of the greedy matcher is, independently of the loops that find it. */
  ghost predicate ValidStep(text: string, st: Lz77Step)
  {
    && Decodable(text, st)
    && LongestAt(text, st.position, st.length)
    && EarliestAt(text, st.position, st.offset, st.length)
  }

  /** Positions start at 0, advance by length + 1, and the last step reaches the end of the text. */
  ghost predicate Chained(steps: seq<Lz77Step>, n: nat)
  {
    && (steps == [] <==> n == 0)
    && (steps != [] ==> steps[0].position == 0 && steps[|steps| - 1].position + steps[|steps| - 1].length + 1 >= n)
    && (forall k :: 0 <= k < |steps| - 1 ==> steps[k + 1].position == steps[k].position + steps[k].length + 1)
  }

  /** The dictionary entry pushed for a step with a match: `lookAhead.substring(0, length + 1)`. */
  function Entry(text: string, st: Lz77Step): (r: string)
  {
    Substring(text, st.position, st.position + Min(st.length + 1, LookaheadSize))
  }

  function DictEntries(text: string, steps: seq<Lz77Step>): (r: seq<string>)
  {
    if steps == [] then []
    else
      var last := steps[|steps| - 1];
      DictEntries(text, steps[..|steps| - 1]) + (if last.length > 0 then [Entry(text, last)] else [])
  }

  /** A match that cannot be extended by one more character is the one the inner loop measures. */
  lemma CommonLenStops(text: string, s: nat, p: nat, m: nat)
    requires s <= p <= |text|
    requires IsMatch(text, s, p, m) && m <= Lim(text, p)
    requires m == Lim(text, p) || s + m == p || text[s + m] != text[p + m]
    ensures CommonLen(text, s, p) == m
  {
    CommonLenLongest(text, s, p);
  }

  /**
   * The best match after measuring the starts `windowStart` .. `upto - 1`:
   * no measured start gives a longer match, and every start before the
   * chosen one gives a shorter match.
   */
  ghost predicate ScanSoFar(text: string, position: nat, windowStart: nat, upto: nat, bestOffset: nat, bestLength: nat)
    requires windowStart <= upto <= position < |text|
  {
    && bestLength <= Lim(text, position)
    && (bestLength == 0 ==> bestOffset == 0)
    && (bestLength > 0 ==> 1 <= bestOffset <= position - windowStart && position - bestOffset < upto)
    && (bestLength > 0 ==> IsMatch(text, position - bestOffset, position, bestLength))
    && (forall s :: windowStart <= s < upto ==> CommonLen(text, s, position) <= bestLength)
    && (bestLength > 0 ==> forall s :: windowStart <= s < position - bestOffset ==> CommonLen(text, s, position) < bestLength)
  }

  /** The outcome of scanning the whole window at `position`. */
  ghost predicate BestScan(text: string, position: nat, bestOffset: nat, bestLength: nat)
    requires position < |text|
  {
    ScanSoFar(text, position, WindowStart(position), position, bestOffset, bestLength)
  }

  /** Measuring one more start and keeping it only when strictly longer keeps `ScanSoFar`. */
  lemma ScanStep(text: string, position: nat, windowStart: nat, i: nat, bestOffset: nat, bestLength: nat, m: nat)
    requires windowStart + i < position < |text|
    requires ScanSoFar(text, position, windowStart, windowStart + i, bestOffset, bestLength)
    requires IsMatch(text, windowStart + i, position, m) && m == CommonLen(text, windowStart + i, position)
    ensures m > bestLength ==> ScanSoFar(text, position, windowStart, windowStart + (i + 1), position - (windowStart + i), m)
    ensures m <= bestLength ==> ScanSoFar(text, position, windowStart, windowStart + (i + 1), bestOffset, bestLength)
  {
    MatchFromSpec(text, windowStart + i, position, 0);
  }

  /** The inner loop: how far the window, read from index i, agrees with the lookahead. */
  method MeasureMatch(text: string, position: nat, windowStart: nat, windowText: string, lookAhead: string, i: nat)
    returns (matchLength: nat)
    requires windowStart <= position < |text| && i < |windowText|
    requires windowText == text[windowStart..position]
    requires |lookAhead| == Lim(text, position) && lookAhead == text[position..position + |lookAhead|]
    ensures IsMatch(text, windowStart + i, position, matchLength)
    ensures matchLength == CommonLen(text, windowStart + i, position)
  {
    matchLength := 0;
    // reading past the end of `windowText` yields `undefined`, which equals no character
    while matchLength < |lookAhead| && i + matchLength < |windowText| && windowText[i + matchLength] == lookAhead[matchLength]
      invariant matchLength <= |lookAhead| && i + matchLength <= |windowText|
      invariant windowText[i..i + matchLength] == lookAhead[..matchLength]
    {
      matchLength := matchLength + 1;
    }
    MeasuredMatch(text, position, windowStart, windowText, lookAhead, i, matchLength);
  }

  /** Where the inner loop stops is the common length of the window at i and the lookahead. */
  lemma MeasuredMatch(text: string, position: nat, windowStart: nat, windowText: string, lookAhead: string, i: nat, m: nat)
    requires windowStart <= position < |text| && i < |windowText|
    requires windowText == text[windowStart..position]
    requires |lookAhead| == Lim(text, position) && lookAhead == text[position..position + |lookAhead|]
    requires m <= |lookAhead| && i + m <= |windowText| && windowText[i..i + m] == lookAhead[..m]
    requires m == |lookAhead| || i + m == |windowText| || windowText[i + m] != lookAhead[m]
    ensures IsMatch(text, windowStart + i, position, m)
    ensures m == CommonLen(text, windowStart + i, position)
  {
    var s := windowStart + i;
    SliceOfSlice(text, windowStart, position, i, i + m);
    DropTake(text, position, m);
    assert lookAhead[..m] == text[position..][..m];
    assert text[s..s + m] == text[position..position + m];
    CommonLenStops(text, s, position, m);
  }

  /** The lookahead and the window as `substring` cuts them. */
  lemma ScanInputs(text: string, position: nat)
    requires position < |text|
    ensures var lookAhead := Substring(text, position, position + LookaheadSize);
      |lookAhead| == Lim(text, position) && lookAhead == text[position..position + |lookAhead|]
    ensures WindowStart(position) <= position && Substring(text, WindowStart(position), position) == text[WindowStart(position)..position]
  {
  }

  /** The scan over the window for one position: the best (offset, length). */
  method FindLongestMatch(text: string, position: nat) returns (bestOffset: nat, bestLength: nat)
    requires position < |text|
    ensures MatchAt(text, position, bestOffset, bestLength)
    ensures LongestAt(text, position, bestLength)
    ensures EarliestAt(text, position, bestOffset, bestLength)
  {
    bestOffset, bestLength := 0, 0;
    var lookAhead := Substring(text, position, position + LookaheadSize);
    var windowStart := WindowStart(position);
    var windowText := Substring(text, windowStart, position);
    ScanInputs(text, position);
    for i := 0 to |windowText|
      invariant ScanSoFar(text, position, windowStart, windowStart + i, bestOffset, bestLength)
    {
      var matchLength := MeasureMatch(text, position, windowStart, windowText, lookAhead, i);
      ScanStep(text, position, windowStart, i, bestOffset, bestLength, matchLength);
      if matchLength > bestLength {
        bestOffset := position - (windowStart + i);
        bestLength := matchLength;
      }
    }
    BestScanIsBest(text, position, bestOffset, bestLength);
  }

  /** Every step of the list is valid (stated step by step from the last one back; see `AllValidAt`). */
  ghost predicate AllValid(text: string, steps: seq<Lz77Step>)
  {
    steps == [] || (AllValid(text, steps[..|steps| - 1]) && ValidStep(text, steps[|steps| - 1]))
  }

  lemma {:induction false} AllValidAt(text: string, steps: seq<Lz77Step>)
    requires AllValid(text, steps)
    ensures forall k :: 0 <= k < |steps| ==> ValidStep(text, steps[k])
  {
    if steps != [] {
      var init := steps[..|steps| - 1];
      AllValidAt(text, init);
      assert forall k :: 0 <= k < |init| ==> steps[k] == init[k];
    }
  }

  /** Positions start at 0 and advance by length + 1 up to `position`. */
  ghost predicate ChainedTo(steps: seq<Lz77Step>, position: nat)
  {
    && (steps == [] <==> position == 0)
    && (steps != [] ==> steps[0].position == 0 && steps[|steps| - 1].position + steps[|steps| - 1].length + 1 == position)
    && (forall k :: 0 <= k < |steps| - 1 ==> steps[k + 1].position == steps[k].position + steps[k].length + 1)
  }

  /** Each step records the size the dictionary had when it was made. */
  ghost predicate Indexed(text: string, steps: seq<Lz77Step>)
  {
    steps == [] || (Indexed(text, steps[..|steps| - 1]) && steps[|steps| - 1].dictionaryIndex == |DictEntries(text, steps[..|steps| - 1])|)
  }

  lemma {:induction false} IndexedAt(text: string, steps: seq<Lz77Step>)
    requires Indexed(text, steps)
    ensures forall k :: 0 <= k < |steps| ==> steps[k].dictionaryIndex == |DictEntries(text, steps[..k])|
  {
    if steps != [] {
      var init := steps[..|steps| - 1];
      IndexedAt(text, init);
      forall k | 0 <= k < |init| ensures steps[k] == init[k] && steps[..k] == init[..k] {
      }
    }
  }

  lemma AllValidSnoc(text: string, steps: seq<Lz77Step>, step: Lz77Step)
    requires AllValid(text, steps) && ValidStep(text, step)
    ensures AllValid(text, steps + [step])
  {
    assert (steps + [step])[..|steps|] == steps;
  }

  lemma ChainedSnoc(steps: seq<Lz77Step>, position: nat, step: Lz77Step)
    requires ChainedTo(steps, position) && step.position == position
    ensures ChainedTo(steps + [step], position + step.length + 1)
  {
  }

  lemma IndexedSnoc(text: string, steps: seq<Lz77Step>, step: Lz77Step)
    requires Indexed(text, steps) && step.dictionaryIndex == |DictEntries(text, steps)|
    ensures Indexed(text, steps + [step])
  {
    assert (steps + [step])[..|steps|] == steps;
  }

  lemma DictEntriesSnoc(text: string, steps: seq<Lz77Step>, step: Lz77Step)
    ensures step.length > 0 ==> DictEntries(text, steps + [step]) == DictEntries(text, steps) + [Entry(text, step)]
    ensures step.length == 0 ==> DictEntries(text, steps + [step]) == DictEntries(text, steps)
  {
    assert (steps + [step])[..|steps|] == steps;
  }

  /** The loop invariant of `LempelZivCompress`: the steps so far and the dictionary they built. */
  ghost predicate Progress(text: string, steps: seq<Lz77Step>, dictionary: seq<string>, position: nat)
  {
    && position <= |text| + 1
    && AllValid(text, steps)
    && ChainedTo(steps, position)
    && dictionary == DictEntries(text, steps)
    && Indexed(text, steps)
  }

  /** One iteration of the loop keeps `Progress`. */
  lemma Advance(text: string, steps: seq<Lz77Step>, dictionary: seq<string>, position: nat,
                offset: nat, length: nat, nextChar: string, dictionary': seq<string>)
    requires Progress(text, steps, dictionary, position) && position < |text|
    requires MatchAt(text, position, offset, length)
    requires LongestAt(text, position, length)
    requires EarliestAt(text, position, offset, length)
    requires nextChar == (if position + length < |text| then [text[position + length]] else "")
    requires length > 0 ==> dictionary' == dictionary + [Substring(Substring(text, position, position + LookaheadSize), 0, length + 1)]
    requires length == 0 ==> dictionary' == dictionary
    ensures Progress(text, steps + [Lz77Step(position, offset, length, nextChar, |dictionary|)], dictionary', position + length + 1)
  {
    var step := Lz77Step(position, offset, length, nextChar, |dictionary|);
    StepValid(text, position, offset, length, nextChar, |dictionary|);
    AllValidSnoc(text, steps, step);
    ChainedSnoc(steps, position, step);
    IndexedSnoc(text, steps, step);
    DictionaryStep(text, steps, dictionary, step, dictionary');
  }

  lemma StepValid(text: string, position: nat, offset: nat, length: nat, nextChar: string, index: nat)
    requires MatchAt(text, position, offset, length)
    requires LongestAt(text, position, length)
    requires EarliestAt(text, position, offset, length)
    requires nextChar == (if position + length < |text| then [text[position + length]] else "")
    ensures ValidStep(text, Lz77Step(position, offset, length, nextChar, index))
  {
  }

  /** The dictionary after one iteration is `DictEntries` of the longer step list. */
  lemma DictionaryStep(text: string, steps: seq<Lz77Step>, dictionary: seq<string>, step: Lz77Step, dictionary': seq<string>)
    requires dictionary == DictEntries(text, steps)
    requires MatchAt(text, step.position, step.offset, step.length)
    requires step.length > 0 ==> dictionary' == dictionary + [Substring(Substring(text, step.position, step.position + LookaheadSize), 0, step.length + 1)]
    requires step.length == 0 ==> dictionary' == dictionary
    ensures dictionary' == DictEntries(text, steps + [step])
  {
    DictEntriesSnoc(text, steps, step);
    if step.length > 0 {
      PushedEntry(text, step);
    }
  }

  /** When the loop stops, the steps reach the end of the text. */
  lemma Finished(text: string, steps: seq<Lz77Step>, dictionary: seq<string>, position: nat)
    requires Progress(text, steps, dictionary, position) && position >= |text|
    ensures AllValid(text, steps)
    ensures Chained(steps, |text|)
    ensures dictionary == DictEntries(text, steps)
    ensures Indexed(text, steps)
  {
    if steps != [] {
      assert ValidStep(text, steps[|steps| - 1]);
    }
  }

  /** The library's `lempelZivCompress`. */
  method LempelZivCompress(text: string) returns (steps: seq<Lz77Step>, dictionary: seq<string>)
    ensures forall k :: 0 <= k < |steps| ==> ValidStep(text, steps[k])
    ensures Chained(steps, |text|)
    ensures dictionary == DictEntries(text, steps)
    ensures forall k :: 0 <= k < |steps| ==> steps[k].dictionaryIndex == |DictEntries(text, steps[..k])|
    ensures Replay(steps) == text
  {
    steps := [];
    dictionary := [];
    var position: nat := 0;
    while position < |text|
      invariant Progress(text, steps, dictionary, position)
      decreases |text| + 1 - position
    {
      var bestOffset, bestLength := FindLongestMatch(text, position);
      var nextChar := if position + bestLength < |text| then [text[position + bestLength]] else "";
      var dictionaryIndex := |dictionary|;
      var step := Lz77Step(position, bestOffset, bestLength, nextChar, dictionaryIndex);
      ghost var dictionaryBefore := dictionary;
      if bestLength > 0 {
        var lookAhead := Substring(text, position, position + LookaheadSize);
        dictionary := dictionary + [Substring(lookAhead, 0, bestLength + 1)];
      }
      Advance(text, steps, dictionaryBefore, position, bestOffset, bestLength, nextChar, dictionary);
      steps := steps + [step];
      position := position + bestLength + 1;
    }
    Finished(text, steps, dictionary, position);
    AllValidAt(text, steps);
    IndexedAt(text, steps);
    ValidIsDecodable(text, steps);
    ReplayRestoresText(text, steps);
  }

  /** What the loop pushes, `lookAhead.substring(0, length + 1)`, is the step's `Entry`. */
  lemma PushedEntry(text: string, st: Lz77Step)
    requires st.position < |text| && st.length <= Lim(text, st.position)
    ensures Substring(Substring(text, st.position, st.position + LookaheadSize), 0, st.length + 1) == Entry(text, st)
  {
    var p := st.position;
    var hi := Min(p + LookaheadSize, |text|);
    var n := Min(st.length + 1, hi - p);
    assert Substring(text, p, p + LookaheadSize) == text[p..hi];
    assert Substring(text[p..hi], 0, st.length + 1) == text[p..hi][0..n];
    SliceOfSlice(text, p, hi, 0, n);
  }

  /** A finished scan found a longest match, the earliest among the longest. */
  lemma BestScanIsBest(text: string, p: nat, offset: nat, length: nat)
    requires p < |text| && BestScan(text, p, offset, length)
    ensures MatchAt(text, p, offset, length)
    ensures LongestAt(text, p, length)
    ensures EarliestAt(text, p, offset, length)
  {
    forall s: nat, l: nat | WindowStart(p) <= s < p && IsMatch(text, s, p, l) ensures l <= length {
      CommonLenLongest(text, s, p);
    }
    if length > 0 {
      forall s: nat | WindowStart(p) <= s < p - offset ensures !IsMatch(text, s, p, length) {
        CommonLenLongest(text, s, p);
      }
    }
  }

  // ---------------------------------------------------------------- replay

  ghost predicate AllDecodable(text: string, steps: seq<Lz77Step>)
  {
    forall k :: 0 <= k < |steps| ==> Decodable(text, steps[k])
  }

  lemma ValidIsDecodable(text: string, steps: seq<Lz77Step>)
    requires AllValid(text, steps)
    ensures AllDecodable(text, steps)
  {
    AllValidAt(text, steps);
  }

  /** Decoding one step: copy `length` characters from `offset` back, then append `nextChar`. */
  function ReplayStep(out: string, st: Lz77Step): (r: string)
  {
    var copied := if st.offset <= |out| && st.length <= st.offset
                  then out[|out| - st.offset..|out| - st.offset + st.length] else "";
    out + copied + st.nextChar
  }

  function Replay(steps: seq<Lz77Step>): (r: string)
  {
    if steps == [] then "" else ReplayStep(Replay(steps[..|steps| - 1]), steps[|steps| - 1])
  }

  /** Decoding one step after the text before its position yields the text up to the step's end. */
  lemma ReplayOne(text: string, out: string, st: Lz77Step)
    requires Decodable(text, st) && out == text[..st.position]
    ensures ReplayStep(out, st) == text[..Min(st.position + st.length + 1, |text|)]
  {
    var p, o, l := st.position, st.offset, st.length;
    if l > 0 {
      CopyBack(text, p, o, l);
    } else {
      assert out[|out| - o..|out| - o + l] == [];
    }
    TextSplit(text, p, l);
  }

  /** Copying from `offset` back in the decoded prefix yields the text at the position. */
  lemma CopyBack(text: string, p: nat, o: nat, l: nat)
    requires 1 <= o <= p && IsMatch(text, p - o, p, l)
    ensures text[..p][p - o..p - o + l] == text[p..p + l]
  {
    SliceOfSlice(text, 0, p, p - o, p - o + l);
  }

  lemma TextSplit(text: string, p: nat, l: nat)
    requires p + l <= |text|
    ensures text[..Min(p + l + 1, |text|)] == text[..p] + text[p..p + l] + (if p + l < |text| then [text[p + l]] else [])
  {
    if p + l < |text| {
      assert text[..p + l + 1] == text[..p] + text[p..p + l] + [text[p + l]];
    } else {
      assert text[..|text|] == text[..p] + text[p..p + l];
    }
  }

  lemma {:induction false} ReplayPrefix(text: string, steps: seq<Lz77Step>, k: nat)
    requires AllDecodable(text, steps)
    requires Chained(steps, |text|)
    requires 0 < k <= |steps|
    ensures var last := steps[k - 1];
      Replay(steps[..k]) == text[..Min(last.position + last.length + 1, |text|)]
  {
    var st := steps[k - 1];
    assert steps[..k][..k - 1] == steps[..k - 1];
    if k == 1 {
      assert Replay(steps[..k - 1]) == [] == text[..st.position];
    } else {
      ReplayPrefix(text, steps, k - 1);
      assert st.position == steps[k - 2].position + steps[k - 2].length + 1;
    }
    ReplayOne(text, Replay(steps[..k - 1]), st);
  }

  /**
   * Round trip: any chain of valid steps over `text` (in particular the
   * output of `LempelZivCompress`) replays to exactly `text`.
   */
  lemma ReplayRestoresText(text: string, steps: seq<Lz77Step>)
    requires AllDecodable(text, steps)
    requires Chained(steps, |text|)
    ensures Replay(steps) == text
  {
    if steps != [] {
      ReplayPrefix(text, steps, |steps|);
      var last := steps[|steps| - 1];
      assert steps[..|steps|] == steps;
      assert Min(last.position + last.length + 1, |text|) == |text|;
      assert text[..|text|] == text;
    }
  }
}
