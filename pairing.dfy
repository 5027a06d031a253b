/**
 * Turning the numbers of one document into (X, Y) pairs: the per-page lists are flattened in
 * page order, an odd count loses its last number, and the list is split by index parity
 * (`numbers[::2]`, `numbers[1::2]`) into the X and Y columns.
 */
module Pairing {

  /** `[num for sublist in results for num in sublist]`. */
  function Flatten<T>(xss: seq<seq<T>>): seq<T> {
    if xss == [] then [] else xss[0] + Flatten(xss[1..])
  }

  /** Page order: flattening a concatenation of page lists concatenates their flattenings. */
  lemma {:induction false} FlattenAppend<T>(a: seq<seq<T>>, b: seq<seq<T>>)
    ensures Flatten(a + b) == Flatten(a) + Flatten(b)
    decreases |a|
  {
    if a == [] {
      assert a + b == b;
    } else {
      assert (a + b)[1..] == a[1..] + b;
      FlattenAppend(a[1..], b);
    }
  }

  /** Flattening one more page list appends its elements. */
  lemma FlattenAppendOne<T>(xss: seq<seq<T>>, xs: seq<T>)
    ensures Flatten(xss + [xs]) == Flatten(xss) + xs
  {
    FlattenAppend(xss, [xs]);
    assert Flatten([xs]) == xs + Flatten([]);
  }

  /** `if len(numbers) % 2 != 0: numbers = numbers[:-1]`. */
  function TrimEven<T>(s: seq<T>): seq<T> {
    if |s| % 2 != 0 then s[..|s| - 1] else s
  }

  /** The trimmed list is an even-length prefix of the list, missing only its last element when the count was odd. */
  lemma TrimEvenKeepsPrefix<T>(s: seq<T>)
    ensures |TrimEven(s)| % 2 == 0
    ensures |TrimEven(s)| == |s| - |s| % 2
    ensures TrimEven(s) == s[..|TrimEven(s)|]
  {
  }

  /** `s[::2]`: the elements at even indices. */
  function Evens<T>(s: seq<T>): seq<T> {
    seq((|s| + 1) / 2, k requires 0 <= k < (|s| + 1) / 2 => s[2 * k])
  }

  /** `s[1::2]`: the elements at odd indices. */
  function Odds<T>(s: seq<T>): seq<T> {
    seq(|s| / 2, k requires 0 <= k < |s| / 2 => s[2 * k + 1])
  }

  /** `x0, y0, x1, y1, ...` from two lists of the same length. */
  function Interleave<T>(xs: seq<T>, ys: seq<T>): seq<T>
    requires |xs| == |ys|
  {
    if xs == [] then [] else [xs[0], ys[0]] + Interleave(xs[1..], ys[1..])
  }

  /** `list(zip(xs, ys))`: pairs up to the length of the shorter list. */
  function Zip<T, U>(xs: seq<T>, ys: seq<U>): seq<(T, U)> {
    var n := if |xs| < |ys| then |xs| else |ys|;
    seq(n, k requires 0 <= k < n => (xs[k], ys[k]))
  }

  /** On an even-length list X and Y have the same length, half of the list's. */
  lemma SplitHalves<T>(t: seq<T>)
    requires |t| % 2 == 0
    ensures |Evens(t)| == |Odds(t)| == |t| / 2
  {
  }

  /** Interleaving X and Y rebuilds an even-length list. */
  lemma {:induction false} InterleaveSplit<T>(t: seq<T>)
    requires |t| % 2 == 0
    ensures |Evens(t)| == |Odds(t)|
    ensures Interleave(Evens(t), Odds(t)) == t
    decreases |t|
  {
    if t != [] {
      var rest := t[2..];
      assert Evens(t)[1..] == Evens(rest);
      assert Odds(t)[1..] == Odds(rest);
      InterleaveSplit(rest);
      assert t == [t[0], t[1]] + rest;
    }
  }

  /** The pairs of the job loop: trim, split, and one row per (X, Y). */
  function PairsOf<T>(numbers: seq<T>): seq<(T, T)> {
    var t := TrimEven(numbers);
    Zip(Evens(t), Odds(t))
  }

  /** Pair k is the numbers at positions 2k and 2k + 1, and every complete pair is there. */
  lemma PairsOfIndices<T>(numbers: seq<T>)
    ensures |PairsOf(numbers)| == |numbers| / 2
    ensures forall k :: 0 <= k < |numbers| / 2 ==> PairsOf(numbers)[k] == (numbers[2 * k], numbers[2 * k + 1])
  {
    TrimEvenKeepsPrefix(numbers);
  }

  /**
   * `process_single_file` does not trim, but `zip` stops at the shorter column, so its pairs are
   * exactly those of the trimmed split.
   */
  lemma ZipWithoutTrimAgrees<T>(numbers: seq<T>)
    ensures Zip(Evens(numbers), Odds(numbers)) == PairsOf(numbers)
  {
    var t := TrimEven(numbers);
    TrimEvenKeepsPrefix(numbers);
    assert |Zip(Evens(numbers), Odds(numbers))| == |numbers| / 2;
    forall k | 0 <= k < |numbers| / 2
      ensures Zip(Evens(numbers), Odds(numbers))[k] == PairsOf(numbers)[k]
    {
      assert t[2 * k] == numbers[2 * k];
      assert t[2 * k + 1] == numbers[2 * k + 1];
    }
  }
}
