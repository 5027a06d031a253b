/**
 * File discovery in `process_files_thread`: every file of the walked tree whose name, in lower
 * case, is `plan.pdf` is collected with its directory, in walk order, and counted.
 *
 * `os.walk` itself is an input: the sequence of (directory, file names) steps it yields.
 * Paths are POSIX paths.
 */
module Discovery {

  /** One step of `os.walk`: a directory and the names of the files directly inside it. */
  datatype WalkStep = WalkStep(root: string, files: seq<string>)

  /** `str.lower()` on ASCII letters; every other character is left as it is. */
  function LowerChar(c: char): char {
    if 'A' <= c <= 'Z' then (c as int + ('a' as int - 'A' as int)) as char else c
  }

  function Lower(s: string): string {
    seq(|s|, k requires 0 <= k < |s| => LowerChar(s[k]))
  }

  const PlanName: string := "plan.pdf"

  predicate IsPlanName(name: string) {
    Lower(name) == PlanName
  }

  /** `os.path.join(root, name)` for POSIX paths. */
  function Join(root: string, name: string): string {
    if |name| > 0 && name[0] == '/' then name
    else if root == [] || root[|root| - 1] == '/' then root + name
    else root + "/" + name
  }

  /** The paths collected from one directory, in listing order. */
  function PlansIn(root: string, files: seq<string>): seq<string> {
    if files == [] then []
    else
      var name := files[|files| - 1];
      PlansIn(root, files[..|files| - 1]) + (if IsPlanName(name) then [Join(root, name)] else [])
  }

  /** `pdf_files` after the walk: the paths collected from every directory, in walk order. */
  function PlanPaths(walk: seq<WalkStep>): seq<string> {
    if walk == [] then []
    else PlanPaths(walk[..|walk| - 1]) + PlansIn(walk[|walk| - 1].root, walk[|walk| - 1].files)
  }

  /**
   * The discovery loop: for each walk step and each of its file names, a name whose lower case
   * is `plan.pdf` is joined to its directory, appended to `pdf_files` and counted.
   */
  method DiscoverPlans(walk: seq<WalkStep>) returns (pdfFiles: seq<string>, totalFiles: nat)
    ensures pdfFiles == PlanPaths(walk)
    ensures totalFiles == |pdfFiles|
  {
    pdfFiles, totalFiles := [], 0;
    var i := 0;
    while i < |walk|
      invariant 0 <= i <= |walk|
      invariant pdfFiles == PlanPaths(walk[..i])
      invariant totalFiles == |pdfFiles|
    {
      var root, files := walk[i].root, walk[i].files;
      var j := 0;
      while j < |files|
        invariant 0 <= j <= |files|
        invariant pdfFiles == PlanPaths(walk[..i]) + PlansIn(root, files[..j])
        invariant totalFiles == |pdfFiles|
      {
        var fileName := files[j];
        if Lower(fileName) == PlanName {
          var filePath := Join(root, fileName);
          pdfFiles := pdfFiles + [filePath];
          totalFiles := totalFiles + 1;
        }
        assert files[..j + 1][..j] == files[..j];
        j := j + 1;
      }
      assert files[..j] == files;
      assert walk[..i + 1][..i] == walk[..i];
      i := i + 1;
    }
    assert walk[..i] == walk;
  }

  /** A directory contributes exactly the joins of its file names that lower-case to `plan.pdf`. */
  lemma {:induction false} PlansInExactly(root: string, files: seq<string>, p: string)
    ensures p in PlansIn(root, files) <==> exists n :: n in files && IsPlanName(n) && p == Join(root, n)
    decreases |files|
  {
    if files != [] {
      var init := files[..|files| - 1];
      var last := files[|files| - 1];
      PlansInExactly(root, init, p);
      assert files == init + [last];
      if exists n :: n in files && IsPlanName(n) && p == Join(root, n) {
        var n :| n in files && IsPlanName(n) && p == Join(root, n);
        if n != last {
          assert n in init;
        }
      }
    }
  }

  /**
   * Discovery keeps exactly the files whose name lower-cases to `plan.pdf`, joined to the
   * directory the walk listed them in, at any depth.
   */
  lemma {:induction false} PlanPathsExactly(walk: seq<WalkStep>, p: string)
    ensures p in PlanPaths(walk) <==>
              exists i, n :: 0 <= i < |walk| && n in walk[i].files && IsPlanName(n) && p == Join(walk[i].root, n)
    decreases |walk|
  {
    if walk != [] {
      var init := walk[..|walk| - 1];
      var last := walk[|walk| - 1];
      PlanPathsExactly(init, p);
      PlansInExactly(last.root, last.files, p);
      if exists i, n :: 0 <= i < |walk| && n in walk[i].files && IsPlanName(n) && p == Join(walk[i].root, n) {
        var i, n :| 0 <= i < |walk| && n in walk[i].files && IsPlanName(n) && p == Join(walk[i].root, n);
        if i < |walk| - 1 {
          assert init[i] == walk[i];
        }
      }
      if p in PlanPaths(init) {
        var i, n :| 0 <= i < |init| && n in init[i].files && IsPlanName(n) && p == Join(init[i].root, n);
        assert walk[i] == init[i];
      }
    }
  }

  /** Walk order: the paths of two consecutive parts of the walk are those of the first part, then those of the second. */
  lemma {:induction false} PlanPathsAppend(a: seq<WalkStep>, b: seq<WalkStep>)
    ensures PlanPaths(a + b) == PlanPaths(a) + PlanPaths(b)
    decreases |b|
  {
    if b == [] {
      assert a + b == a;
    } else {
      var b' := b[..|b| - 1];
      assert (a + b)[..|a + b| - 1] == a + b';
      assert (a + b)[|a + b| - 1] == b[|b| - 1];
      PlanPathsAppend(a, b');
    }
  }

  /** A joined plan name: the path ends with the name, which is the whole path or follows a '/'. */
  lemma JoinedPlanShape(root: string, name: string)
    requires IsPlanName(name)
    ensures var p := Join(root, name);
            |p| >= 8 && p[|p| - 8..] == name && (|p| == 8 || p[|p| - 9] == '/')
  {
    assert |Lower(name)| == |name|;
    assert Lower(name)[0] == LowerChar(name[0]) == PlanName[0] == 'p';
  }

  /** Every discovered path ends with a last component that lower-cases to `plan.pdf`. */
  lemma PlanPathShape(walk: seq<WalkStep>, p: string)
    requires p in PlanPaths(walk)
    ensures |p| >= 8 && IsPlanName(p[|p| - 8..]) && (|p| == 8 || p[|p| - 9] == '/')
  {
    PlanPathsExactly(walk, p);
    var i, n :| 0 <= i < |walk| && n in walk[i].files && IsPlanName(n) && p == Join(walk[i].root, n);
    JoinedPlanShape(walk[i].root, n);
  }
}
