/**
 * The numeric-token filter of `process_image`: every OCR string is searched with
 * `re.findall(r'\b\d{5,}(?:\.\d+)?\b', text)`, every match is turned into a number with
 * `float(num.replace(',', '.'))`, and the numbers above 100000 are kept in encounter order.
 *
 * Character classes are ASCII: `\d` is 0-9 and `\w` is the ASCII letters, digits and `_`.
 * Numbers are exact reals, not binary floating point.
 */
module TokenExtractor {
  import opened Wrappers

  predicate IsDigit(c: char) { '0' <= c <= '9' }

  predicate IsWordChar(c: char) {
    IsDigit(c) || 'a' <= c <= 'z' || 'A' <= c <= 'Z' || c == '_'
  }

  /** `\b` at position p: exactly one of the two characters around p is a word character. */
  predicate IsWordBoundary(s: string, p: nat)
    requires p <= |s|
  {
    (0 < p && IsWordChar(s[p - 1])) != (p < |s| && IsWordChar(s[p]))
  }

  predicate AllDigits(t: string) {
    forall k :: 0 <= k < |t| ==> IsDigit(t[k])
  }

  /** Length of the maximal run of digits that starts at position i. */
  function DigitRun(s: string, i: nat): (n: nat)
    requires i <= |s|
    ensures i + n <= |s|
    ensures forall k :: i <= k < i + n ==> IsDigit(s[k])
    ensures i + n == |s| || !IsDigit(s[i + n])
    decreases |s| - i
  {
    if i < |s| && IsDigit(s[i]) then 1 + DigitRun(s, i + 1) else 0
  }

  /** t belongs to the language of `\d{5,}(?:\.\d+)?`. */
  predicate IsNumberToken(t: string) {
    var k := DigitRun(t, 0);
    k >= 5 && (k == |t| || (t[k] == '.' && k + 1 < |t| && AllDigits(t[k + 1..])))
  }

  /** The whole pattern, both `\b` anchors included, matches s[i..j]. */
  predicate MatchesAt(s: string, i: nat, j: nat) {
    i < j <= |s| && IsWordBoundary(s, i) && IsWordBoundary(s, j) && IsNumberToken(s[i..j])
  }

  /**
   * The end of the match that Python's backtracking engine reports when it tries the pattern
   * at position i, or None when that attempt fails.  The greedy `\d{5,}` first takes the whole
   * digit run; the optional fraction is tried first, with all its digits; the closing `\b` can
   * then only hold at the end of the fraction or at the end of the run.
   */
  function MatchEnd(s: string, i: nat): (r: Option<nat>)
    requires i <= |s|
    ensures r.Some? ==> i + 5 <= r.value <= |s|
  {
    if i < |s| && IsDigit(s[i]) && IsWordBoundary(s, i) then
      var e := i + DigitRun(s, i);
      if e - i < 5 then None
      else if e < |s| && s[e] == '.' && DigitRun(s, e + 1) > 0
              && IsWordBoundary(s, e + 1 + DigitRun(s, e + 1)) then
        Some(e + 1 + DigitRun(s, e + 1))
      else if IsWordBoundary(s, e) then Some(e)
      else None
    else None
  }

  /** The leading digits of s[i..j] are the digit run at i, cut at j. */
  lemma DigitRunOfSlice(s: string, i: nat, j: nat)
    requires i <= j <= |s|
    ensures DigitRun(s[i..j], 0) == if DigitRun(s, i) < j - i then DigitRun(s, i) else j - i
  {
    var t := s[i..j];
    var k, n := DigitRun(t, 0), DigitRun(s, i);
    assert forall m :: 0 <= m < |t| ==> t[m] == s[i + m];
    if k < j - i {
      assert t[k] == s[i + k];
    }
    if n < j - i {
      assert t[n] == s[i + n];
    }
  }

  /** Any match at i ends either at the end of the digit run or at the end of the fraction after it. */
  lemma MatchShape(s: string, i: nat, j: nat)
    requires MatchesAt(s, i, j)
    ensures i < |s| && IsDigit(s[i]) && DigitRun(s, i) >= 5
    ensures var e := i + DigitRun(s, i);
            j == e || (e < |s| && s[e] == '.' && DigitRun(s, e + 1) > 0 && j == e + 1 + DigitRun(s, e + 1))
  {
    var t := s[i..j];
    var n := DigitRun(s, i);
    var e := i + n;
    DigitRunOfSlice(s, i, j);
    assert t[0] == s[i];
    assert forall m :: 0 <= m < |t| ==> t[m] == s[i + m];
    assert IsDigit(s[j - 1]) by {
      if DigitRun(t, 0) < |t| {
        assert t[n + 1..][|t| - n - 2] == t[|t| - 1];
      }
    }
    assert j == |s| || !IsDigit(s[j]);
    if DigitRun(t, 0) < |t| {
      assert t[n] == s[e];
      assert forall m :: e + 1 <= m < j ==> IsDigit(s[m]) by {
        forall m | e + 1 <= m < j ensures IsDigit(s[m]) {
          assert t[n + 1..][m - e - 1] == s[m];
        }
      }
    }
  }

  /** What the engine reports at i is a match of the pattern. */
  lemma MatchEndSound(s: string, i: nat)
    requires i <= |s| && MatchEnd(s, i).Some?
    ensures MatchesAt(s, i, MatchEnd(s, i).value)
  {
    var j := MatchEnd(s, i).value;
    var n := DigitRun(s, i);
    var e := i + n;
    var t := s[i..j];
    DigitRunOfSlice(s, i, j);
    if j != e {
      assert t[n] == s[e];
      assert t[n + 1..] == s[e + 1..j];
      assert AllDigits(t[n + 1..]);
    }
  }

  /**
   * The engine's choice at i is the longest match of the pattern that starts at i, and it
   * fails exactly when no match starts at i.
   */
  lemma MatchEndIsLongestMatch(s: string, i: nat)
    requires i <= |s|
    ensures MatchEnd(s, i).Some? ==> MatchesAt(s, i, MatchEnd(s, i).value)
    ensures forall j: nat :: MatchesAt(s, i, j) ==> MatchEnd(s, i).Some? && j <= MatchEnd(s, i).value
  {
    if MatchEnd(s, i).Some? {
      MatchEndSound(s, i);
    }
    forall j: nat | MatchesAt(s, i, j)
      ensures MatchEnd(s, i).Some? && j <= MatchEnd(s, i).value
    {
      MatchShape(s, i, j);
    }
  }

  /** Where a match was found: s[start..end]. */
  datatype Span = Span(start: nat, end: nat)

  /**
   * The scan of `re.findall` from position pos: the pattern is tried at each position; after a
   * match the scan resumes at the match's end, otherwise one character further on.
   */
  function Scan(s: string, pos: nat): (spans: seq<Span>)
    requires pos <= |s|
    ensures forall k :: 0 <= k < |spans| ==>
              pos <= spans[k].start <= |s| && MatchEnd(s, spans[k].start) == Some(spans[k].end)
    ensures forall k :: 0 < k < |spans| ==> spans[k - 1].end <= spans[k].start
    decreases |s| - pos
  {
    if pos == |s| then []
    else match MatchEnd(s, pos)
      case Some(j) => [Span(pos, j)] + Scan(s, j)
      case None => Scan(s, pos + 1)
  }

  /** The scan passes over no position where a match starts, except positions inside an earlier match. */
  lemma {:induction false} ScanMissesNoMatch(s: string, pos: nat, p: nat)
    requires pos <= p < |s| && MatchEnd(s, p).Some?
    ensures exists k :: 0 <= k < |Scan(s, pos)| && Scan(s, pos)[k].start <= p < Scan(s, pos)[k].end
    decreases |s| - pos
  {
    var spans := Scan(s, pos);
    match MatchEnd(s, pos)
    case Some(j) =>
      if p < j {
        assert spans[0].start <= p < spans[0].end;
      } else {
        ScanMissesNoMatch(s, j, p);
        var k :| 0 <= k < |Scan(s, j)| && Scan(s, j)[k].start <= p < Scan(s, j)[k].end;
        assert spans[k + 1] == Scan(s, j)[k];
      }
    case None =>
      ScanMissesNoMatch(s, pos + 1, p);
  }

  /** The substrings the scan from pos reports, left to right. */
  function FindAllFrom(s: string, pos: nat): seq<string>
    requires pos <= |s|
    decreases |s| - pos
  {
    if pos == |s| then []
    else match MatchEnd(s, pos)
      case Some(j) => [s[pos..j]] + FindAllFrom(s, j)
      case None => FindAllFrom(s, pos + 1)
  }

  /** `re.findall(pattern, s)`: the matched substrings, left to right. */
  function FindAll(s: string): seq<string> {
    FindAllFrom(s, 0)
  }

  lemma {:induction false} FindAllFromFollowsScan(s: string, pos: nat)
    requires pos <= |s|
    ensures |FindAllFrom(s, pos)| == |Scan(s, pos)|
    ensures forall k :: 0 <= k < |Scan(s, pos)| ==>
              FindAllFrom(s, pos)[k] == s[Scan(s, pos)[k].start..Scan(s, pos)[k].end]
    decreases |s| - pos
  {
    if pos < |s| {
      match MatchEnd(s, pos)
      case Some(j) => FindAllFromFollowsScan(s, j);
      case None => FindAllFromFollowsScan(s, pos + 1);
    }
  }

  /**
   * Every string findall returns is the match of the pattern at a span of the scan, so it is
   * in the pattern's language.
   */
  lemma FindAllReturnsMatches(s: string)
    ensures |FindAll(s)| == |Scan(s, 0)|
    ensures forall k :: 0 <= k < |Scan(s, 0)| ==>
              MatchesAt(s, Scan(s, 0)[k].start, Scan(s, 0)[k].end)
              && FindAll(s)[k] == s[Scan(s, 0)[k].start..Scan(s, 0)[k].end]
    ensures forall m :: m in FindAll(s) ==> IsNumberToken(m)
  {
    var spans := Scan(s, 0);
    FindAllFromFollowsScan(s, 0);
    forall k | 0 <= k < |spans|
      ensures MatchesAt(s, spans[k].start, spans[k].end)
    {
      MatchEndSound(s, spans[k].start);
    }
  }

  function DigitValue(c: char): nat
    requires IsDigit(c)
  {
    c as int - '0' as int
  }

  /** The value of a string of decimal digits, most significant first. */
  function NatOf(ds: string): nat
    requires AllDigits(ds)
  {
    if ds == [] then 0 else 10 * NatOf(ds[..|ds| - 1]) + DigitValue(ds[|ds| - 1])
  }

  function Pow10(n: nat): (p: nat)
    ensures p >= 1
  {
    if n == 0 then 1 else 10 * Pow10(n - 1)
  }

  lemma {:induction false} NatOfBelowPow10(ds: string)
    requires AllDigits(ds)
    ensures NatOf(ds) < Pow10(|ds|)
  {
    if ds != [] {
      NatOfBelowPow10(ds[..|ds| - 1]);
    }
  }

  /**
   * `float(t)` on plain decimal literals ("12", "12.5", "12.", ".5"), read as an exact real.
   * Any other text is a ValueError, here None.
   */
  function ParseFloat(t: string): Option<real> {
    var k := DigitRun(t, 0);
    if 0 < k == |t| then Some(NatOf(t) as real)
    else if k < |t| && t[k] == '.' && AllDigits(t[k + 1..]) && (0 < k || k + 1 < |t|) then
      Some(NatOf(t[..k]) as real + NatOf(t[k + 1..]) as real / Pow10(|t| - k - 1) as real)
    else None
  }

  /** `s.replace(from, to)` for single characters. */
  function Replace(s: string, from: char, to: char): (r: string)
    ensures |r| == |s|
    ensures forall k :: 0 <= k < |s| ==> r[k] == if s[k] == from then to else s[k]
  {
    seq(|s|, k requires 0 <= k < |s| => if s[k] == from then to else s[k])
  }

  /** The digits before the decimal point of a token. */
  function IntegerDigits(t: string): string {
    t[..DigitRun(t, 0)]
  }

  /** The digits after the decimal point of a token; empty when it has none. */
  function FractionDigits(t: string): string {
    var k := DigitRun(t, 0);
    if k < |t| then t[k + 1..] else []
  }

  /** A match never holds a comma, so `replace(',', '.')` leaves it as it is. */
  lemma TokenHasNoComma(t: string)
    requires IsNumberToken(t)
    ensures Replace(t, ',', '.') == t
  {
    var k := DigitRun(t, 0);
    forall m | 0 <= m < |t|
      ensures t[m] != ','
    {
      if m > k {
        assert t[m] == t[k + 1..][m - k - 1];
      }
    }
  }

  /** float() accepts every match; its value is the integer digits plus the fraction digits scaled down. */
  lemma TokenParses(t: string)
    requires IsNumberToken(t)
    ensures AllDigits(IntegerDigits(t)) && AllDigits(FractionDigits(t))
    ensures ParseFloat(t) == Some(NatOf(IntegerDigits(t)) as real
                                  + NatOf(FractionDigits(t)) as real / Pow10(|FractionDigits(t)|) as real)
  {
    var k := DigitRun(t, 0);
    if k == |t| {
      assert IntegerDigits(t) == t;
      assert FractionDigits(t) == [];
    }
  }

  lemma FractionBelowOne(b: nat, p: nat)
    requires b < p
    ensures 0.0 <= b as real / p as real < 1.0
    ensures b as real / p as real > 0.0 <==> b > 0
  {
    var q := b as real / p as real;
    assert q * p as real == b as real;
  }

  /** An integer plus a fraction in [0, 1) is above 100000 when the integer is, or equals it with a non-zero fraction. */
  lemma AboveThresholdSplit(a: nat, q: real)
    requires 0.0 <= q < 1.0
    ensures a as real + q > 100000.0 <==> a > 100000 || (a == 100000 && q > 0.0)
  {
    if a > 100000 {
      assert a as real >= 100001.0;
    } else if a < 100000 {
      assert a as real <= 99999.0;
    }
  }

  /**
   * The exact value of a match exceeds 100000 exactly when its integer part does, or its
   * integer part is 100000 and some fraction digit is not zero.
   */
  lemma TokenAboveThreshold(t: string)
    requires IsNumberToken(t)
    ensures AllDigits(IntegerDigits(t)) && AllDigits(FractionDigits(t)) && ParseFloat(t).Some?
    ensures ParseFloat(t).value > 100000.0 <==>
              NatOf(IntegerDigits(t)) > 100000
              || (NatOf(IntegerDigits(t)) == 100000 && NatOf(FractionDigits(t)) > 0)
  {
    TokenParses(t);
    var f := FractionDigits(t);
    NatOfBelowPow10(f);
    FractionBelowOne(NatOf(f), Pow10(|f|));
    AboveThresholdSplit(NatOf(IntegerDigits(t)), NatOf(f) as real / Pow10(|f|) as real);
  }

  /**
   * The body of `process_image`'s inner loop over the matches of one string: each match is
   * parsed after replacing ',' by '.', skipped when float() raises, kept when above 100000.
   */
  function KeepLarge(ms: seq<string>): seq<real>
  {
    if ms == [] then []
    else
      var vs := KeepLarge(ms[..|ms| - 1]);
      match ParseFloat(Replace(ms[|ms| - 1], ',', '.'))
      case Some(v) => if v > 100000.0 then vs + [v] else vs
      case None => vs
  }

  /** What `process_image` returns for an image whose OCR strings are texts. */
  function ExtractNumbers(texts: seq<string>): seq<real>
  {
    if texts == [] then []
    else ExtractNumbers(texts[..|texts| - 1]) + KeepLarge(FindAll(texts[|texts| - 1]))
  }

  /** KeepLarge keeps at most one number per match, and only numbers above 100000. */
  lemma {:induction false} KeepLargeAboveThreshold(ms: seq<string>)
    ensures |KeepLarge(ms)| <= |ms|
    ensures forall k :: 0 <= k < |KeepLarge(ms)| ==> KeepLarge(ms)[k] > 100000.0
    decreases |ms|
  {
    if ms != [] {
      KeepLargeAboveThreshold(ms[..|ms| - 1]);
    }
  }

  /** `process_image` never returns a number at or below 100000. */
  lemma {:induction false} ExtractedAboveThreshold(texts: seq<string>)
    ensures forall k :: 0 <= k < |ExtractNumbers(texts)| ==> ExtractNumbers(texts)[k] > 100000.0
    decreases |texts|
  {
    if texts != [] {
      ExtractedAboveThreshold(texts[..|texts| - 1]);
      KeepLargeAboveThreshold(FindAll(texts[|texts| - 1]));
    }
  }

  /** Encounter order: the numbers of a concatenation of string lists are the numbers of each, in order. */
  lemma {:induction false} ExtractNumbersAppend(a: seq<string>, b: seq<string>)
    ensures ExtractNumbers(a + b) == ExtractNumbers(a) + ExtractNumbers(b)
    decreases |b|
  {
    if b == [] {
      assert a + b == a;
    } else {
      var b', x := b[..|b| - 1], b[|b| - 1];
      assert (a + b)[..|a + b| - 1] == a + b';
      assert (a + b)[|a + b| - 1] == x;
      ExtractNumbersAppend(a, b');
      calc {
        ExtractNumbers(a + b);
        ExtractNumbers(a + b') + KeepLarge(FindAll(x));
        ExtractNumbers(a) + ExtractNumbers(b') + KeepLarge(FindAll(x));
        ExtractNumbers(a) + ExtractNumbers(b);
      }
    }
  }

  /** Every extracted number is the value of some match in some OCR string. */
  lemma {:induction false} ExtractedValuesComeFromMatches(texts: seq<string>, v: real)
    requires v in ExtractNumbers(texts)
    ensures exists i, m :: 0 <= i < |texts| && m in FindAll(texts[i]) && ParseFloat(m) == Some(v)
    decreases |texts|
  {
    var init := texts[..|texts| - 1];
    var last := texts[|texts| - 1];
    if v in ExtractNumbers(init) {
      ExtractedValuesComeFromMatches(init, v);
      var i, m :| 0 <= i < |init| && m in FindAll(init[i]) && ParseFloat(m) == Some(v);
      assert texts[i] == init[i];
    } else {
      FindAllReturnsMatches(last);
      var m := KeptValueComesFromMatch(FindAll(last), v);
      TokenHasNoComma(m);
    }
  }

  /** The value of a match above 100000 in one OCR string is among that string's kept numbers. */
  lemma LargeMatchIsKept(t: string, m: string, v: real)
    requires m in FindAll(t) && ParseFloat(m) == Some(v) && v > 100000.0
    ensures v in KeepLarge(FindAll(t))
  {
    var ms := FindAll(t);
    FindAllReturnsMatches(t);
    TokenHasNoComma(m);
    var k :| 0 <= k < |ms| && ms[k] == m;
    KeepLargeKeepsEveryLarge(ms, k, v);
  }

  /** Conversely, the value of every match above 100000 in any of the OCR strings is extracted. */
  lemma {:induction false} LargeMatchesAreExtracted(texts: seq<string>, i: nat, m: string, v: real)
    requires i < |texts| && m in FindAll(texts[i]) && ParseFloat(m) == Some(v) && v > 100000.0
    ensures v in ExtractNumbers(texts)
    decreases |texts|
  {
    var init := texts[..|texts| - 1];
    var last := texts[|texts| - 1];
    assert ExtractNumbers(texts) == ExtractNumbers(init) + KeepLarge(FindAll(last));
    if i < |init| {
      assert init[i] == texts[i];
      LargeMatchesAreExtracted(init, i, m, v);
    } else {
      LargeMatchIsKept(last, m, v);
    }
  }

  /** A number KeepLarge keeps is the parse of one of its inputs, after the comma replacement. */
  lemma {:induction false} KeptValueComesFromMatch(ms: seq<string>, v: real) returns (m: string)
    requires v in KeepLarge(ms)
    ensures m in ms && ParseFloat(Replace(m, ',', '.')) == Some(v)
    decreases |ms|
  {
    var init := ms[..|ms| - 1];
    if v in KeepLarge(init) {
      m := KeptValueComesFromMatch(init, v);
    } else {
      m := ms[|ms| - 1];
    }
  }

  /** Conversely, every input that parses to a number above 100000 has that number kept. */
  lemma {:induction false} KeepLargeKeepsEveryLarge(ms: seq<string>, k: nat, v: real)
    requires k < |ms| && ParseFloat(Replace(ms[k], ',', '.')) == Some(v) && v > 100000.0
    ensures v in KeepLarge(ms)
    decreases |ms|
  {
    var init := ms[..|ms| - 1];
    if k < |init| {
      assert init[k] == ms[k];
      KeepLargeKeepsEveryLarge(init, k, v);
    }
  }

  /**
   * `[float(n.replace(',', '.')) for n in ms if float(n.replace(',', '.')) > 100000]`, the
   * filter of `process_single_file`, which has no `try`: None when float() raises.
   */
  function StrictLarge(ms: seq<string>): Option<seq<real>> {
    if ms == [] then Some([])
    else
      match StrictLarge(ms[..|ms| - 1])
      case None => None
      case Some(vs) =>
        match ParseFloat(Replace(ms[|ms| - 1], ',', '.'))
        case None => None
        case Some(v) => if v > 100000.0 then Some(vs + [v]) else Some(vs)
  }

  /**
   * On matches of the pattern the `except ValueError` branch of `process_image` is never taken,
   * and the filter without `try` of `process_single_file` neither raises nor differs from it.
   */
  lemma {:induction false} MatchesNeverRaise(ms: seq<string>)
    requires forall m :: m in ms ==> IsNumberToken(m)
    ensures forall m :: m in ms ==> ParseFloat(Replace(m, ',', '.')).Some?
    ensures StrictLarge(ms) == Some(KeepLarge(ms))
    decreases |ms|
  {
    if ms != [] {
      var init := ms[..|ms| - 1];
      assert forall m :: m in init ==> m in ms;
      MatchesNeverRaise(init);
      forall m | m in ms
        ensures ParseFloat(Replace(m, ',', '.')).Some?
      {
        TokenHasNoComma(m);
        TokenParses(m);
      }
    }
  }

  /**
   * `process_image(image, reader)` once `reader.readtext` has returned texts: the nested loops
   * that append every large match, in encounter order.
   */
  method ProcessImage(texts: seq<string>) returns (numbers: seq<real>)
    ensures numbers == ExtractNumbers(texts)
  {
    numbers := [];
    var i := 0;
    while i < |texts|
      invariant 0 <= i <= |texts|
      invariant numbers == ExtractNumbers(texts[..i])
    {
      var extracted := FindAll(texts[i]);
      var j := 0;
      while j < |extracted|
        invariant 0 <= j <= |extracted|
        invariant numbers == ExtractNumbers(texts[..i]) + KeepLarge(extracted[..j])
      {
        var num := extracted[j];
        var value := ParseFloat(Replace(num, ',', '.'));
        if value.Some? && value.value > 100000.0 {
          numbers := numbers + [value.value];
        }
        assert extracted[..j + 1][..j] == extracted[..j];
        assert KeepLarge(extracted[..j + 1]) == KeepLarge(extracted[..j])
                 + (if value.Some? && value.value > 100000.0 then [value.value] else []);
        j := j + 1;
      }
      assert extracted[..j] == extracted;
      assert texts[..i + 1][..i] == texts[..i];
      assert ExtractNumbers(texts[..i + 1]) == ExtractNumbers(texts[..i]) + KeepLarge(FindAll(texts[i]));
      i := i + 1;
    }
    assert texts[..i] == texts;
  }
}
