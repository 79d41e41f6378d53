/**
 * The dictionary matcher of the Lempel-Ziv visualizer. The dictionary starts
 * as [""]; at each position the newest entry `e` equal to
 * `text.substring(position, position + |e| + 1)` is taken as the match.
 * Because an entry of length k is compared against k + 1 characters, it can
 * only be equal when the text ends first, that is when `e` is the whole rest
 * of the text. Every other step is a literal: offset 0, length 0 and the
 * character at `position`, which is appended to the dictionary unless present.
 *
 * `StepAt` states the resulting trace in closed form; `LzCompress` is the
 * loop of the visualizer, proved to produce it; `Replay` is the matching
 * decoder and `ReplayRestoresText` the round trip.
 */
module LzDictionary {
  import opened Common

  datatype LzStep = LzStep(position: nat, offset: nat, length: nat, nextChar: string, dictionaryIndex: int)

  /**
   * The dictionary after the literal steps over `s`: the empty entry followed
   * by each distinct character of `s`, in order of first occurrence.
   */
  function DictOf(s: string): (d: seq<string>)
    ensures |d| >= 1 && d[0] == ""
    ensures forall i :: 1 <= i < |d| ==> |d[i]| == 1
  {
    if s == [] then [""]
    else
      var d := DictOf(s[..|s| - 1]);
      var e := [s[|s| - 1]];
      if e in d then d else d + [e]
  }

  /**
   * The dictionary has no duplicates, and its non-empty entries are exactly
   * the characters of the text seen so far.
   */
  lemma {:induction false} DictOfEntries(s: string)
    ensures var d := DictOf(s);
      && (forall i, j :: 0 <= i < j < |d| ==> d[i] != d[j])
      && (forall k :: 0 <= k < |s| ==> [s[k]] in d)
      && (forall e :: e in d && e != "" ==> e == [e[0]] && e[0] in s)
  {
    if s != [] {
      var init := s[..|s| - 1];
      DictOfEntries(init);
      forall k | 0 <= k < |s| - 1 ensures s[k] == init[k] { }
    }
  }

  /** The newest index holding `e`, where the backward scan stops. */
  function LastIndexOf(d: seq<string>, e: string): (r: nat)
    requires e in d
    ensures r < |d| && d[r] == e
    ensures forall j :: r < j < |d| ==> d[j] != e
  {
    if d[|d| - 1] == e then |d| - 1 else LastIndexOf(d[..|d| - 1], e)
  }

  /** The step recorded at position k. */
  function StepAt(text: string, k: nat): (r: LzStep)
    requires k < |text|
  {
    var d := DictOf(text[..k]);
    if k == |text| - 1 && [text[k]] in d then
      LzStep(k, LastIndexOf(d, [text[k]]), 1, "", |d| - 1)
    else
      LzStep(k, 0, 0, [text[k]], |d| - 1)
  }

  function StepsUpTo(text: string, p: nat): (r: seq<LzStep>)
    requires p <= |text|
    ensures |r| == p
  {
    seq(p, k requires 0 <= k < p => StepAt(text, k))
  }

  /** The loop of the visualizer's `lzCompress`. */
  method LzCompress(text: string) returns (steps: seq<LzStep>, dict: seq<string>)
    ensures steps == StepsUpTo(text, |text|)
    ensures dict == DictOf(text)
  {
    dict := [""];
    steps := [];
    var position: nat := 0;
    while position < |text|
      invariant position <= |text| + 1
      invariant position <= |text| ==> steps == StepsUpTo(text, position) && dict == DictOf(text[..position])
      invariant position == |text| + 1 ==> steps == StepsUpTo(text, |text|) && dict == DictOf(text)
      decreases |text| + 1 - position
    {
      var length: nat := 0;
      var offset: nat := 0;
      var i := |dict| - 1;
      while i >= 0
        invariant -1 <= i < |dict|
        invariant length == 0 && offset == 0
        invariant forall j :: i < j < |dict| ==> dict[j] != Substring(text, position, position + |dict[j]| + 1)
        decreases i + 1
      {
        if dict[i] == Substring(text, position, position + |dict[i]| + 1) {
          offset := i;
          length := |dict[i]|;
          break;
        }
        i := i - 1;
      }
      MatchIsWholeRest(text, position, dict, length, offset);
      var nextChar := if position + length < |text| then [text[position + length]] else "";
      var newSeq := Substring(text, position, position + length + 1);
      var step := LzStep(position, offset, length, nextChar, |dict| - 1);
      StepRecorded(text, position, dict, step);
      DictAdvance(text, position, dict, length, newSeq);
      StepsUpToSnoc(text, position);
      steps := steps + [step];
      if newSeq != "" && newSeq !in dict {
        dict := dict + [newSeq];
      }
      position := position + length + 1;
    }
    assert text[..|text|] == text;
  }

  /**
   * The backward scan's outcome: either nothing matched (length and offset
   * are 0), or position is the last one and the entry is its character.
   */
  lemma MatchIsWholeRest(text: string, position: nat, dict: seq<string>, length: nat, offset: nat)
    requires position < |text| && dict == DictOf(text[..position])
    requires (length == 0 && offset == 0 &&
                forall j :: 0 <= j < |dict| ==> dict[j] != Substring(text, position, position + |dict[j]| + 1))
          || (offset < |dict| && dict[offset] == Substring(text, position, position + |dict[offset]| + 1)
                && length == |dict[offset]|
                && forall j :: offset < j < |dict| ==> dict[j] != Substring(text, position, position + |dict[j]| + 1))
    ensures StepAt(text, position).offset == offset && StepAt(text, position).length == length
  {
    assert Substring(text, position, position + 1) == [text[position]];
    if position < |text| - 1 {
      assert forall j :: 1 <= j < |dict| ==> |Substring(text, position, position + |dict[j]| + 1)| == 2;
    } else {
      assert forall j :: 1 <= j < |dict| ==> Substring(text, position, position + |dict[j]| + 1) == [text[position]];
    }
  }

  lemma StepsUpToSnoc(text: string, p: nat)
    requires p < |text|
    ensures StepsUpTo(text, p) + [StepAt(text, p)] == StepsUpTo(text, p + 1)
  {
    var l, r := StepsUpTo(text, p) + [StepAt(text, p)], StepsUpTo(text, p + 1);
    forall k | 0 <= k < p + 1 ensures l[k] == r[k] {
    }
  }

  /** One pass of the outer loop records `StepAt` and extends the dictionary as `DictOf` does. */
  lemma StepRecorded(text: string, position: nat, dict: seq<string>, step: LzStep)
    requires position < |text| && dict == DictOf(text[..position])
    requires StepAt(text, position).offset == step.offset && StepAt(text, position).length == step.length
    requires step.position == position && step.dictionaryIndex == |dict| - 1
    requires step.nextChar == if position + step.length < |text| then [text[position + step.length]] else ""
    ensures step == StepAt(text, position)
  {
  }

  /** The dictionary after one pass of the outer loop. */
  lemma DictAdvance(text: string, position: nat, dict: seq<string>, length: nat, newSeq: string)
    requires position < |text| && dict == DictOf(text[..position])
    requires StepAt(text, position).length == length
    requires newSeq == Substring(text, position, position + length + 1)
    ensures length == 0 ==> (if newSeq != "" && newSeq !in dict then dict + [newSeq] else dict) == DictOf(text[..position + 1])
    ensures length != 0 ==> position + 1 == |text| && newSeq in dict && dict == DictOf(text)
  {
    assert newSeq == [text[position]];
    DictOfSnoc(text, position);
    if length != 0 {
      assert text[..position + 1] == text;
    }
  }

  /** The dictionary after one more character: that character is appended unless already present. */
  lemma DictOfSnoc(text: string, position: nat)
    requires position < |text|
    ensures var d := DictOf(text[..position]); var e := [text[position]];
      DictOf(text[..position + 1]) == if e in d then d else d + [e]
  {
    assert text[..position + 1][..position] == text[..position];
  }

  // ---------------------------------------------------------------- properties

  /** The dictionary only grows: the dictionary of a longer prefix extends that of a shorter one. */
  lemma {:induction false} DictAppendOnly(s: string, k: nat)
    requires k <= |s|
    ensures DictOf(s[..k]) <= DictOf(s)
    decreases |s| - k
  {
    if k < |s| {
      DictAppendOnly(s[..|s| - 1], k);
      assert s[..|s| - 1][..k] == s[..k];
    } else {
      assert s[..k] == s;
    }
  }

  /**
   * The step's dictionary entry followed by its next character is the text
   * it covers, `text.substring(position, position + length + 1)`.
   */
  lemma StepCoversText(text: string, k: nat)
    requires k < |text|
    ensures var s := StepAt(text, k);
      && s.position == k && s.length <= 1
      && s.offset < |DictOf(text[..k])|
      && DictOf(text[..k])[s.offset] + s.nextChar == Substring(text, k, k + s.length + 1)
      && (s.length > 0 ==> k == |text| - 1 && s.nextChar == "")
  {
  }

  /** The decoder: rebuild the dictionary exactly as the encoder does while appending each piece. */
  function Replay(steps: seq<LzStep>, dict: seq<string>): (r: string)
    decreases |steps|
  {
    if steps == [] then ""
    else
      var s := steps[0];
      var piece := (if s.offset < |dict| then dict[s.offset] else "") + s.nextChar;
      piece + Replay(steps[1..], if piece != "" && piece !in dict then dict + [piece] else dict)
  }

  /** The first step of the replay: one piece, and the decoder's dictionary follows `DictOf`. */
  lemma ReplayStep(text: string, k: nat)
    requires k < |text|
    ensures var s := StepAt(text, k);
      var d := DictOf(text[..k]);
      var piece := (if s.offset < |d| then d[s.offset] else "") + s.nextChar;
      && piece == [text[k]]
      && (s.length == 0 ==> (if piece != "" && piece !in d then d + [piece] else d) == DictOf(text[..k + 1]))
      && (s.length != 0 ==> k == |text| - 1)
  {
    StepCoversText(text, k);
    assert text[..k + 1][..k] == text[..k];
  }

  lemma {:induction false} ReplayFrom(text: string, k: nat)
    requires k <= |text|
    ensures Replay(StepsUpTo(text, |text|)[k..], DictOf(text[..k])) == text[k..]
    decreases |text| - k
  {
    var all := StepsUpTo(text, |text|);
    if k < |text| {
      var s := StepAt(text, k);
      var d := DictOf(text[..k]);
      assert all[k..][0] == s;
      assert all[k..][1..] == all[k + 1..];
      ReplayStep(text, k);
      var piece := [text[k]];
      var next := if piece != "" && piece !in d then d + [piece] else d;
      assert Replay(all[k..], d) == piece + Replay(all[k + 1..], next);
      if s.length == 0 {
        ReplayFrom(text, k + 1);
      } else {
        assert all[k + 1..] == [];
      }
      SliceCons(text, k);
    } else {
      assert all[k..] == [];
    }
  }

  /** Round trip: replaying the compressed steps from the initial dictionary gives back the text. */
  lemma ReplayRestoresText(text: string)
    ensures Replay(StepsUpTo(text, |text|), [""]) == text
  {
    ReplayFrom(text, 0);
    assert StepsUpTo(text, |text|)[0..] == StepsUpTo(text, |text|);
    assert text[..0] == [];
  }

  /** The dictionaries built over the prefixes of the visualizer's default input. */
  lemma DefaultDictionaries()
    ensures DictOf("ABABCABAB") == ["", "A", "B", "C"]
    ensures DictOf("ABABCABABC") == ["", "A", "B", "C"]
  {
    assert "A"[..0] == "" && "AB"[..1] == "A" && "ABA"[..2] == "AB" && "ABAB"[..3] == "ABA";
    assert "ABABC"[..4] == "ABAB" && "ABABCA"[..5] == "ABABC" && "ABABCAB"[..6] == "ABABCA";
    assert "ABABCABA"[..7] == "ABABCAB" && "ABABCABAB"[..8] == "ABABCABA";
    assert "ABABCABABC"[..9] == "ABABCABAB";
    assert DictOf("A") == ["", "A"];
    assert DictOf("AB") == ["", "A", "B"];
    assert DictOf("ABA") == ["", "A", "B"];
    assert DictOf("ABAB") == ["", "A", "B"];
    assert DictOf("ABABC") == ["", "A", "B", "C"];
    assert DictOf("ABABCA") == ["", "A", "B", "C"];
    assert DictOf("ABABCAB") == ["", "A", "B", "C"];
    assert DictOf("ABABCABA") == ["", "A", "B", "C"];
  }

  /**
   * The visualizer's default input: ten steps, the last one a match of the
   * final "C" against dictionary entry 3, and four dictionary entries.
   */
  lemma DefaultInput()
    ensures var text := "ABABCABABC";
      && |StepsUpTo(text, |text|)| == 10
      && StepAt(text, 9) == LzStep(9, 3, 1, "", 3)
      && DictOf(text) == ["", "A", "B", "C"]
  {
    var text := "ABABCABABC";
    DefaultDictionaries();
    assert text[..9] == "ABABCABAB";
  }
}
