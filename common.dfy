/**
 * Shared vocabulary of the algorithm engines: optional values, symbols with
 * exact probabilities, sums over sequences, the stable sort that JavaScript's
 * `Array.prototype.sort` performs, and ASCII upper-casing.
 */
module Common {

  datatype Option<T> = None | Some(value: T)

  /** A symbol of an alphabet with its probability or weight, taken as an exact real. */
  datatype Symbol = Symbol(ch: string, prob: real)

  function Prob(s: Symbol): (r: real) { s.prob }

  /** `-prob`: sorting by this key ascending is sorting by probability descending. */
  function NegProb(s: Symbol): (r: real) { -s.prob }

  /** Left-to-right sum of the weights of a sequence (`reduce((a, x) => a + w(x), 0)`). */
  function Sum<T>(s: seq<T>, w: T -> real): (r: real)
  {
    if s == [] then 0.0 else Sum(s[..|s| - 1], w) + w(s[|s| - 1])
  }

  lemma {:induction false} SumAppend<T>(a: seq<T>, b: seq<T>, w: T -> real)
    ensures Sum(a + b, w) == Sum(a, w) + Sum(b, w)
  {
    if b == [] {
      assert a + b == a;
    } else {
      assert (a + b)[..|a + b| - 1] == a + b[..|b| - 1];
      SumAppend(a, b[..|b| - 1], w);
    }
  }

  lemma {:induction false} SumPrefix<T>(s: seq<T>, i: nat, w: T -> real)
    requires i < |s|
    ensures Sum(s[..i + 1], w) == Sum(s[..i], w) + w(s[i])
  {
    assert s[..i + 1][..i] == s[..i];
  }

  lemma {:induction false} SumNonNegative<T>(s: seq<T>, w: T -> real)
    requires forall i :: 0 <= i < |s| ==> w(s[i]) >= 0.0
    ensures Sum(s, w) >= 0.0
  {
    if s != [] {
      SumNonNegative(s[..|s| - 1], w);
    }
  }

  ghost predicate SortedBy<T>(s: seq<T>, key: T -> real)
  {
    forall i, j :: 0 <= i < j < |s| ==> key(s[i]) <= key(s[j])
  }

  /** The elements of `s` whose key is `v`, in their order in `s`. */
  function WithKey<T>(s: seq<T>, key: T -> real, v: real): (r: seq<T>)
  {
    if s == [] then []
    else WithKey(s[..|s| - 1], key, v) + (if key(s[|s| - 1]) == v then [s[|s| - 1]] else [])
  }

  /** The elements of a prefix with key `v` come first among those of the whole. */
  lemma {:induction false} WithKeyPrefix<T>(s: seq<T>, key: T -> real, v: real, n: nat)
    requires n <= |s|
    ensures WithKey(s[..n], key, v) <= WithKey(s, key, v)
  {
    if n < |s| {
      var init := s[..|s| - 1];
      assert init[..n] == s[..n];
      WithKeyPrefix(init, key, v, n);
    } else {
      assert s[..n] == s;
    }
  }

  /**
   * Inserts `x` into `sorted` behind every element whose key is not larger
   * than x's: `x` only overtakes elements with a strictly larger key.
   */
  function Insert<T>(sorted: seq<T>, x: T, key: T -> real): (r: seq<T>)
    ensures |r| == |sorted| + 1
    decreases |sorted|
  {
    if sorted == [] || key(sorted[|sorted| - 1]) <= key(x) then sorted + [x]
    else
      assert sorted == sorted[..|sorted| - 1] + [sorted[|sorted| - 1]];
      Insert(sorted[..|sorted| - 1], x, key) + [sorted[|sorted| - 1]]
  }

  /** Insertion adds `x` and loses nothing. */
  lemma {:induction false} InsertPermutes<T>(sorted: seq<T>, x: T, key: T -> real)
    ensures multiset(Insert(sorted, x, key)) == multiset(sorted) + multiset{x}
    decreases |sorted|
  {
    if !(sorted == [] || key(sorted[|sorted| - 1]) <= key(x)) {
      var init := sorted[..|sorted| - 1];
      assert sorted == init + [sorted[|sorted| - 1]];
      InsertPermutes(init, x, key);
    }
  }

  lemma {:induction false} InsertSorted<T>(sorted: seq<T>, x: T, key: T -> real)
    requires SortedBy(sorted, key)
    ensures SortedBy(Insert(sorted, x, key), key)
    decreases |sorted|
  {
    if !(sorted == [] || key(sorted[|sorted| - 1]) <= key(x)) {
      var last := sorted[|sorted| - 1];
      var init := sorted[..|sorted| - 1];
      var front := Insert(init, x, key);
      InsertSorted(init, x, key);
      InsertPermutes(init, x, key);
      var r := front + [last];
      forall i, j | 0 <= i < j < |r| ensures key(r[i]) <= key(r[j]) {
        if j == |front| {
          var y := front[i];
          assert y in multiset(front);
          assert y in multiset(init) + multiset{x};
          if y != x {
            assert y in init;
            var k :| 0 <= k < |init| && init[k] == y;
            assert sorted[k] == y;
          }
        }
      }
    }
  }

  lemma WithKeySnoc<T>(s: seq<T>, y: T, key: T -> real, v: real)
    ensures WithKey(s + [y], key, v) == WithKey(s, key, v) + (if key(y) == v then [y] else [])
  {
    assert (s + [y])[..|s + [y]| - 1] == s;
  }

  /** Insertion keeps the relative order of the elements of each key. */
  lemma {:induction false} InsertWithKey<T>(sorted: seq<T>, x: T, key: T -> real, v: real)
    ensures WithKey(Insert(sorted, x, key), key, v)
         == WithKey(sorted, key, v) + (if key(x) == v then [x] else [])
    decreases |sorted|
  {
    if sorted == [] || key(sorted[|sorted| - 1]) <= key(x) {
      WithKeySnoc(sorted, x, key, v);
    } else {
      var last := sorted[|sorted| - 1];
      var init := sorted[..|sorted| - 1];
      assert sorted == init + [last];
      InsertWithKey(init, x, key, v);
      WithKeySnoc(Insert(init, x, key), last, key, v);
      WithKeySnoc(init, last, key, v);
    }
  }

  /**
   * The stable sort by ascending key (JavaScript's `sort` with comparator
   * `(a, b) => key(a) - key(b)` is required to be stable).
   */
  function SortByKey<T>(s: seq<T>, key: T -> real): (r: seq<T>)
    ensures |r| == |s|
  {
    if s == [] then []
    else
      assert s == s[..|s| - 1] + [s[|s| - 1]];
      Insert(SortByKey(s[..|s| - 1], key), s[|s| - 1], key)
  }

  /**
   * The sort's result is ordered by key, and among elements of equal key
   * the input order is kept.
   */
  lemma {:induction false} SortByKeyStableSorted<T>(s: seq<T>, key: T -> real)
    ensures SortedBy(SortByKey(s, key), key)
    ensures forall v :: WithKey(SortByKey(s, key), key, v) == WithKey(s, key, v)
  {
    if s != [] {
      var init := s[..|s| - 1];
      SortByKeyStableSorted(init, key);
      InsertSorted(SortByKey(init, key), s[|s| - 1], key);
      forall v ensures WithKey(SortByKey(s, key), key, v) == WithKey(s, key, v) {
        InsertWithKey(SortByKey(init, key), s[|s| - 1], key, v);
        assert s == init + [s[|s| - 1]];
        WithKeySnoc(init, s[|s| - 1], key, v);
      }
    }
  }

  /** The sort is a permutation. */
  lemma {:induction false} SortByKeyPermutes<T>(s: seq<T>, key: T -> real)
    ensures multiset(SortByKey(s, key)) == multiset(s)
  {
    if s != [] {
      var init := s[..|s| - 1];
      assert s == init + [s[|s| - 1]];
      SortByKeyPermutes(init, key);
      InsertPermutes(SortByKey(init, key), s[|s| - 1], key);
    }
  }

  /** The order half of SortByKeyStableSorted. */
  lemma SortByKeySorted<T>(s: seq<T>, key: T -> real)
    ensures SortedBy(SortByKey(s, key), key)
  {
    SortByKeyStableSorted(s, key);
  }

  /** The stability half of SortByKeyStableSorted, for one key. */
  lemma SortByKeyStable<T>(s: seq<T>, key: T -> real, v: real)
    ensures WithKey(SortByKey(s, key), key, v) == WithKey(s, key, v)
  {
    SortByKeyStableSorted(s, key);
  }

  /** Probabilities in non-increasing order. */
  predicate Descending(s: seq<Symbol>)
  {
    forall i, j :: 0 <= i < j < |s| ==> s[i].prob >= s[j].prob
  }

  /**
   * `[...symbols].sort((a, b) => b.prob - a.prob)`: the symbols by
   * descending probability, ties in input order.
   */
  function SortDescending(symbols: seq<Symbol>): (sorted: seq<Symbol>)
    ensures |sorted| == |symbols| && multiset(sorted) == multiset(symbols)
    ensures Descending(sorted)
    ensures forall v :: WithKey(sorted, NegProb, v) == WithKey(symbols, NegProb, v)
  {
    SortByKeyStableSorted(symbols, NegProb);
    SortByKeyPermutes(symbols, NegProb);
    var sorted := SortByKey(symbols, NegProb);
    assert forall i, j :: 0 <= i < j < |sorted| ==> NegProb(sorted[i]) <= NegProb(sorted[j]);
    sorted
  }

  lemma ConcatAssoc<T>(a: seq<T>, b: seq<T>, c: seq<T>)
    ensures a + (b + c) == (a + b) + c
  {
  }

  lemma Concat3Index<T>(x: T, b: seq<T>, c: seq<T>, i: nat)
    requires i < 1 + |b| + |c|
    ensures ([x] + b + c)[i] == if i == 0 then x else if i < 1 + |b| then b[i - 1] else c[i - 1 - |b|]
  {
  }

  /** A non-empty suffix is its first element followed by the rest. */
  lemma SliceCons<T>(s: seq<T>, k: nat)
    requires k < |s|
    ensures s[k..] == [s[k]] + s[k + 1..]
  {
  }

  lemma SliceOfSlice<T>(s: seq<T>, a: nat, b: nat, i: nat, j: nat)
    requires a <= b <= |s| && i <= j <= b - a
    ensures s[a..b][i..j] == s[a + i..a + j]
  {
    forall k | 0 <= k < j - i ensures s[a..b][i..j][k] == s[a + i..a + j][k] {
      assert s[a..b][i..j][k] == s[a..b][i + k];
    }
  }

  /** Two strings that branch apart after a common prefix are not prefixes of one another. */
  lemma Diverge(a: string, b: string, p: string, x: char, y: char)
    requires p + [x] <= a && p + [y] <= b && x != y
    ensures !(a <= b)
  {
    assert a[|p|] == x && b[|p|] == y;
  }

  /** `code || '0'`: the empty code is shown as "0". */
  function OrZero(code: string): (r: string)
  {
    if code == "" then "0" else code
  }

  function Min(a: int, b: int): (r: int) { if a <= b then a else b }

  /** `String.prototype.substring(a, b)` for a <= b: both ends are clamped to the string. */
  function Substring(s: string, a: nat, b: nat): (r: string)
    requires a <= b
    ensures |r| <= b - a
  {
    var lo := if a <= |s| then a else |s|;
    var hi := if b <= |s| then b else |s|;
    s[lo..hi]
  }

  /** `String.prototype.toUpperCase` on the ASCII letters; other characters are kept. */
  function UpperChar(c: char): (r: char)
  {
    if 'a' <= c <= 'z' then (c as int - 32) as char else c
  }

  function Upper(s: string): (r: string)
    ensures |r| == |s|
  {
    seq(|s|, i requires 0 <= i < |s| => UpperChar(s[i]))
  }

  /** No element occurs twice. */
  predicate Distinct<T(==)>(s: seq<T>)
  {
    forall i, j :: 0 <= i < j < |s| ==> s[i] != s[j]
  }

  /** Dropping the last entry of a sequence without repeats leaves one without repeats, and without that entry. */
  lemma DistinctInit<T>(s: seq<T>)
    requires Distinct(s) && s != []
    ensures Distinct(s[..|s| - 1]) && s[|s| - 1] !in s[..|s| - 1]
  {
    var init := s[..|s| - 1];
    forall i, j | 0 <= i < j < |init|
      ensures init[i] != init[j]
    {
      assert init[i] == s[i] && init[j] == s[j];
    }
    forall i | 0 <= i < |init|
      ensures init[i] != s[|s| - 1]
    {
      assert init[i] == s[i];
    }
  }

  /** `parts.join(sep)`. */
  function Join(parts: seq<string>, sep: string): (r: string)
  {
    if parts == [] then ""
    else if |parts| == 1 then parts[0]
    else parts[0] + sep + Join(parts[1..], sep)
  }

  /** The index of the first occurrence of a non-empty `sep` in `s` (`s.indexOf(sep)`), if any. */
  function FindFirst(s: string, sep: string): (r: Option<nat>)
    requires sep != ""
    ensures r.Some? ==> r.value + |sep| <= |s| && sep <= s[r.value..]
    ensures r.Some? ==> forall j :: 0 <= j < r.value ==> !(sep <= s[j..])
    ensures r.None? ==> forall j :: 0 <= j <= |s| ==> !(sep <= s[j..])
    decreases |s|
  {
    if |s| < |sep| then None
    else if sep <= s then Some(0)
    else
      assert forall j :: 1 <= j <= |s| ==> s[j..] == s[1..][j - 1..];
      match FindFirst(s[1..], sep)
      case None => None
      case Some(i) => Some(i + 1)
  }

  /**
   * `s.split(sep)` for a non-empty separator: the pieces between the
   * occurrences of `sep`, found from the left without overlapping.
   */
  function Split(s: string, sep: string): (r: seq<string>)
    requires sep != ""
    ensures |r| >= 1
    decreases |s|
  {
    match FindFirst(s, sep)
    case None => [s]
    case Some(i) => [s[..i]] + Split(s[i + |sep|..], sep)
  }

  lemma NoOccurrence(s: string, sep: string)
    requires sep != ""
    requires forall j :: 0 <= j <= |s| ==> !(sep <= s[j..])
    ensures FindFirst(s, sep).None?
  {
  }

  /** Joining the pieces with the separator gives back the string ... */
  lemma {:induction false} JoinSplit(s: string, sep: string)
    requires sep != ""
    ensures Join(Split(s, sep), sep) == s
    decreases |s|
  {
    match FindFirst(s, sep)
    case None =>
    case Some(i) =>
      var tail := s[i + |sep|..];
      SplitAt(s, sep, i);
      JoinSplit(tail, sep);
      JoinCons(s[..i], Split(tail, sep), sep);
      PrefixAt(s, sep, i);
      SliceAround(s, i, i + |sep|);
  }

  /** Splitting at the first occurrence of the separator. */
  lemma SplitAt(s: string, sep: string, i: nat)
    requires sep != "" && FindFirst(s, sep) == Some(i)
    ensures Split(s, sep) == [s[..i]] + Split(s[i + |sep|..], sep)
  {
  }

  lemma PrefixAt<T>(s: seq<T>, p: seq<T>, i: nat)
    requires i + |p| <= |s| && p <= s[i..]
    ensures s[i..i + |p|] == p
  {
  }

  lemma JoinCons(head: string, rest: seq<string>, sep: string)
    requires |rest| >= 1
    ensures Join([head] + rest, sep) == head + sep + Join(rest, sep)
  {
    assert ([head] + rest)[1..] == rest;
  }

  lemma DropTake<T>(s: seq<T>, a: nat, n: nat)
    requires a + n <= |s|
    ensures s[a..][..n] == s[a..a + n]
  {
  }

  lemma TakeDrop<T>(s: seq<T>, i: nat)
    requires i <= |s|
    ensures s[..i] + s[i..] == s
  {
  }

  lemma SliceAround<T>(s: seq<T>, i: nat, j: nat)
    requires i <= j <= |s|
    ensures s == s[..i] + s[i..j] + s[j..]
  {
  }

  /** ... and no piece contains the separator. */
  lemma {:induction false} SplitPiecesClean(s: string, sep: string)
    requires sep != ""
    ensures forall k :: 0 <= k < |Split(s, sep)| ==> FindFirst(Split(s, sep)[k], sep).None?
    decreases |s|
  {
    match FindFirst(s, sep)
    case None =>
    case Some(i) =>
      SplitPiecesClean(s[i + |sep|..], sep);
      var head := s[..i];
      forall j | 0 <= j <= |head|
        ensures !(sep <= head[j..])
      {
        if j < i {
          assert head[j..] <= s[j..];
        }
      }
      NoOccurrence(head, sep);
  }

  /** A string without the separator's first character has no occurrence of it. */
  lemma NoFirstChar(s: string, sep: string)
    requires sep != "" && sep[0] !in s
    ensures FindFirst(s, sep).None?
  {
    forall j | 0 <= j <= |s|
      ensures !(sep <= s[j..])
    {
      if j < |s| {
        assert s[j..][0] == s[j];
      }
    }
    NoOccurrence(s, sep);
  }

  /** In `p + sep + rest` with no separator character in `p`, the first occurrence is right after `p`. */
  lemma FirstAfter(p: string, sep: string, rest: string)
    requires sep != "" && sep[0] !in p
    ensures FindFirst(p + sep + rest, sep) == Some(|p|)
  {
    var s := p + sep + rest;
    assert s[|p|..] == sep + rest;
    forall j | 0 <= j < |p|
      ensures !(sep <= s[j..])
    {
      assert s[j..][0] == p[j];
    }
  }

  /**
   * Splitting pieces joined by `sep` gives the pieces back, provided no
   * piece contains the first character of the separator.
   */
  lemma {:induction false} SplitJoin(parts: seq<string>, sep: string)
    requires sep != "" && |parts| >= 1
    requires forall k :: 0 <= k < |parts| ==> sep[0] !in parts[k]
    ensures Split(Join(parts, sep), sep) == parts
    decreases |parts|
  {
    var s := Join(parts, sep);
    var p := parts[0];
    if |parts| == 1 {
      NoFirstChar(s, sep);
    } else {
      var rest := Join(parts[1..], sep);
      assert s == p + sep + rest;
      FirstAfter(p, sep, rest);
      assert s[..|p|] == p;
      assert s[|p| + |sep|..] == rest;
      SplitJoin(parts[1..], sep);
      assert parts == [p] + parts[1..];
    }
  }
}
