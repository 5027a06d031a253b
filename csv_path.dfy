/**
 * Where the output table of a document goes: `os.path.splitext(path)[0] + ".csv"`, the same
 * expression in the job loop, the download view and the status view.  Paths are POSIX paths:
 * '/' is the only separator.
 */
module CsvPath {
  import Discovery

  /** `p.rfind(c)`: the index of the last occurrence of c in p, or -1 when there is none. */
  function RFind(p: string, c: char): (r: int)
    ensures -1 <= r < |p|
    ensures 0 <= r ==> p[r] == c
    ensures forall k :: r < k < |p| ==> p[k] != c
  {
    if p == [] then -1
    else if p[|p| - 1] == c then |p| - 1
    else RFind(p[..|p| - 1], c)
  }

  /**
   * `posixpath.splitext(p)`: the extension runs from the last '.' of the last path component,
   * unless every character of that component before the '.' is itself a '.'.
   */
  function SplitExt(p: string): (string, string) {
    var sepIndex := RFind(p, '/');
    var dotIndex := RFind(p, '.');
    if dotIndex > sepIndex && exists k :: sepIndex < k < dotIndex && p[k] != '.' then
      (p[..dotIndex], p[dotIndex..])
    else
      (p, "")
  }

  /** The output table's path for the document at path. */
  function CsvPathOf(path: string): string {
    SplitExt(path).0 + ".csv"
  }

  /** RFind finds r when p[r] is c and no later character is. */
  lemma RFindAt(p: string, c: char, r: int)
    requires -1 <= r < |p| && (0 <= r ==> p[r] == c)
    requires forall k :: r < k < |p| ==> p[k] != c
    ensures RFind(p, c) == r
  {
    var f := RFind(p, c);
    if 0 <= r {
      assert p[r] == c;
    }
    if 0 <= f {
      assert p[f] == c;
    }
  }

  /**
   * The two parts of splitext put back together give the path; a non-empty extension is a '.'
   * followed by characters that are neither '.' nor '/', and before it, in the same path
   * component, stands some character other than '.'.
   */
  lemma SplitExtParts(p: string)
    ensures SplitExt(p).0 + SplitExt(p).1 == p
    ensures var ext := SplitExt(p).1;
            ext == [] || (ext[0] == '.' && forall k :: 1 <= k < |ext| ==> ext[k] != '.' && ext[k] != '/')
    ensures var (root, ext) := SplitExt(p);
            ext != [] ==> exists k :: RFind(root, '/') < k < |root| && root[k] != '.'
  {
    var sepIndex := RFind(p, '/');
    var dotIndex := RFind(p, '.');
    if dotIndex > sepIndex && exists k :: sepIndex < k < dotIndex && p[k] != '.' {
      var root, ext := p[..dotIndex], p[dotIndex..];
      assert root + ext == p;
      forall k | 1 <= k < |ext|
        ensures ext[k] != '.' && ext[k] != '/'
      {
        assert ext[k] == p[dotIndex + k];
      }
      var k :| sepIndex < k < dotIndex && p[k] != '.';
      assert root[k] == p[k];
      forall m | sepIndex < m < |root|
        ensures root[m] != '/'
      {
        assert root[m] == p[m];
      }
      RFindAt(root, '/', sepIndex);
    }
  }

  /**
   * splitext splits off an extension exactly when the last path component holds a '.' with some
   * other character before it in that component; with SplitExtParts, the extension then runs from
   * the last '.' of the path.
   */
  lemma SplitExtFindsExtension(p: string)
    ensures SplitExt(p).1 != [] <==>
              exists k, d :: 0 <= k < d < |p| && p[d] == '.' && p[k] != '.'
                             && forall j :: k <= j < |p| ==> p[j] != '/'
  {
    var sepIndex := RFind(p, '/');
    var dotIndex := RFind(p, '.');
    if dotIndex > sepIndex && exists k :: sepIndex < k < dotIndex && p[k] != '.' {
      var k :| sepIndex < k < dotIndex && p[k] != '.';
      assert 0 <= k < dotIndex < |p| && p[dotIndex] == '.' && p[k] != '.'
             && forall j :: k <= j < |p| ==> p[j] != '/';
    }
    if exists k, d :: 0 <= k < d < |p| && p[d] == '.' && p[k] != '.' && forall j :: k <= j < |p| ==> p[j] != '/' {
      var k, d :| 0 <= k < d < |p| && p[d] == '.' && p[k] != '.' && forall j :: k <= j < |p| ==> p[j] != '/';
      assert d <= dotIndex;
      if 0 <= sepIndex {
        assert p[sepIndex] == '/';
      }
      assert sepIndex < k < dotIndex && p[k] != '.';
    }
  }

  lemma LowerCharKeeps(c: char)
    ensures Discovery.LowerChar(c) == '.' <==> c == '.'
    ensures Discovery.LowerChar(c) == '/' <==> c == '/'
  {
  }

  /** A name that lower-cases to `plan.pdf` has its only '.' at index 4 and no '/'. */
  lemma PlanNameChars(name: string)
    requires Discovery.IsPlanName(name)
    ensures |name| == 8
    ensures forall k :: 0 <= k < 8 ==> (name[k] == '.' <==> k == 4) && name[k] != '/'
    ensures Discovery.Lower(name[4..]) == ".pdf"
  {
    assert |Discovery.Lower(name)| == |name|;
    forall k | 0 <= k < 8
      ensures (name[k] == '.' <==> k == 4) && name[k] != '/'
    {
      assert Discovery.Lower(name)[k] == Discovery.LowerChar(name[k]) == Discovery.PlanName[k];
      LowerCharKeeps(name[k]);
    }
    forall k | 0 <= k < 4
      ensures Discovery.Lower(name[4..])[k] == ".pdf"[k]
    {
      assert Discovery.Lower(name)[k + 4] == Discovery.LowerChar(name[k + 4]) == Discovery.PlanName[k + 4];
    }
  }

  /** For a path whose last component lower-cases to `plan.pdf`, the trailing `.pdf` (any case) becomes `.csv`. */
  lemma CsvPathOfPlan(p: string)
    requires |p| >= 8 && Discovery.IsPlanName(p[|p| - 8..]) && (|p| == 8 || p[|p| - 9] == '/')
    ensures SplitExt(p) == (p[..|p| - 4], p[|p| - 4..])
    ensures Discovery.Lower(SplitExt(p).1) == ".pdf"
    ensures CsvPathOf(p) == p[..|p| - 4] + ".csv"
  {
    var n := |p|;
    var name := p[n - 8..];
    PlanNameChars(name);
    assert forall k :: n - 8 <= k < n ==> p[k] == name[k - (n - 8)];
    RFindAt(p, '.', n - 4);
    var sepIndex := RFind(p, '/');
    assert forall k :: n - 8 <= k < n ==> p[k] != '/';
    if 0 <= sepIndex {
      assert p[sepIndex] == '/';
    }
    assert p[n - 5] != '.';
    assert name[4..] == p[n - 4..];
  }

  /** The CSV path of a discovered file, as the job loop and the views derive it. */
  lemma CsvPathOfDiscovered(walk: seq<Discovery.WalkStep>, p: string)
    requires p in Discovery.PlanPaths(walk)
    ensures |p| >= 8 && CsvPathOf(p) == p[..|p| - 4] + ".csv"
  {
    Discovery.PlanPathShape(walk, p);
    CsvPathOfPlan(p);
  }
}
