/** The name of the CSV results file, derived in `cmdCSV` as
    `strings.TrimSuffix(filename, path.Ext(filename)) + "-results.csv"`. */
module OutputPath {

  import opened Text

  const RESULTS_SUFFIX: Bytes := Ascii("-results.csv")

  /** No '/' occurs in `p` after position `k`: position `k` lies in the last
      slash-separated element of `p` (or is that element's leading slash). */
  predicate InLastElement(p: Bytes, k: int) {
    forall j :: 0 <= j < |p| && k < j ==> p[j] != SLASH
  }

  /** `e` is what `path.Ext` must return for `p`: the suffix of `p` that
      starts at the last '.' of its last element, or the empty string when
      that element has no '.'. */
  predicate IsExtOf(p: Bytes, e: Bytes) {
    if e == [] then
      forall k :: 0 <= k < |p| && InLastElement(p, k) ==> p[k] != DOT
    else
      && |e| <= |p|
      && e == p[|p| - |e|..]
      && e[0] == DOT
      && forall k :: 1 <= k < |e| ==> e[k] != DOT && e[k] != SLASH
  }

  /** The loop of `path.Ext`, scanning from position `i` down to the first
      '/' or the start; the second precondition is that loop's invariant. */
  function ExtScan(p: Bytes, i: int): (e: Bytes)
    requires -1 <= i < |p|
    requires forall k :: i < k < |p| ==> p[k] != DOT && p[k] != SLASH
    ensures IsExtOf(p, e)
    decreases i + 1
  {
    if i < 0 || p[i] == SLASH then []
    else if p[i] == DOT then p[i..]
    else ExtScan(p, i - 1)
  }

  /** `path.Ext` */
  function Ext(p: Bytes): (e: Bytes)
    ensures IsExtOf(p, e)
  {
    ExtScan(p, |p| - 1)
  }

  /** A non-empty extension starts at a '.' that lies in the last element. */
  lemma ExtStartsAtDot(p: Bytes, e: Bytes)
    ensures IsExtOf(p, e) && e != [] ==>
              p[|p| - |e|] == DOT && InLastElement(p, |p| - |e|)
  {
    if IsExtOf(p, e) && e != [] {
      var s := |p| - |e|;
      forall j | 0 <= j < |p| && s < j ensures p[j] != SLASH {
        assert p[j] == e[j - s];
      }
    }
  }

  /** No '.' follows the start of a non-empty extension. */
  lemma ExtDotFree(p: Bytes, e: Bytes)
    ensures IsExtOf(p, e) && e != [] ==>
              forall k :: |p| - |e| < k < |p| ==> p[k] != DOT
  {
    if IsExtOf(p, e) && e != [] {
      var s := |p| - |e|;
      forall k | s < k < |p| ensures p[k] != DOT {
        assert p[k] == e[k - s];
      }
    }
  }

  /** `IsExtOf` determines the extension, so `Ext` is the only function
      meeting it. */
  lemma ExtUnique(p: Bytes, e1: Bytes, e2: Bytes)
    requires IsExtOf(p, e1) && IsExtOf(p, e2)
    ensures e1 == e2
  {
    ExtStartsAtDot(p, e1);
    ExtStartsAtDot(p, e2);
    ExtDotFree(p, e1);
    ExtDotFree(p, e2);
  }

  /** `strings.TrimSuffix`: `s` without `suffix` when `s` ends with it,
      otherwise `s` unchanged. */
  function TrimSuffix(s: Bytes, suffix: Bytes): (r: Bytes)
    ensures |suffix| <= |s| && s[|s| - |suffix|..] == suffix ==> r + suffix == s
    ensures !(|suffix| <= |s| && s[|s| - |suffix|..] == suffix) ==> r == s
  {
    if |suffix| <= |s| && s[|s| - |suffix|..] == suffix then s[..|s| - |suffix|] else s
  }

  /** The results file name: a prefix `stem` of the input name followed by
      "-results.csv", where what `stem` leaves of the input name is exactly
      the input's extension. */
  function ResultsName(name: Bytes): (out: Bytes)
    ensures |RESULTS_SUFFIX| <= |out|
    ensures out[|out| - |RESULTS_SUFFIX|..] == RESULTS_SUFFIX
    ensures var stem := out[..|out| - |RESULTS_SUFFIX|];
            stem <= name && IsExtOf(name, name[|stem|..])
  {
    var e := Ext(name);
    var stem := TrimSuffix(name, e);
    var out := stem + RESULTS_SUFFIX;
    assert out[..|out| - |RESULTS_SUFFIX|] == stem;
    assert name[|stem|..] == e;
    out
  }

  /** Whatever string meets `IsExtOf` for the input is what the results
      name drops from it. */
  lemma ResultsNameOfExt(name: Bytes, e: Bytes)
    requires IsExtOf(name, e)
    ensures |e| <= |name| && ResultsName(name) == name[..|name| - |e|] + RESULTS_SUFFIX
  {
    var out := ResultsName(name);
    var stem := out[..|out| - |RESULTS_SUFFIX|];
    ExtUnique(name, name[|stem|..], e);
    assert out == stem + RESULTS_SUFFIX;
  }

  /** The results file lies in the input file's directory: everything up to
      and including the input's last '/' is kept. */
  lemma ResultsNameKeepsDirectory(name: Bytes, k: nat)
    requires k < |name| && name[k] == SLASH
    ensures name[..k + 1] <= ResultsName(name)
  {
    var e := Ext(name);
    ResultsNameOfExt(name, e);
    ExtStartsAtDot(name, e);
    var stem := name[..|name| - |e|];
    assert k < |stem|;
    assert (stem + RESULTS_SUFFIX)[..k + 1] == stem[..k + 1] == name[..k + 1];
  }

  /** The results file never has the input file's own name, so creating it
      cannot overwrite the list of queries. */
  lemma ResultsNameDiffers(name: Bytes)
    ensures ResultsName(name) != name
  {
    var out := ResultsName(name);
    var stem := out[..|out| - |RESULTS_SUFFIX|];
    assert out[|stem|] == RESULTS_SUFFIX[0] == MINUS;
    ExtStartsAtDot(name, name[|stem|..]);
  }

  /** The extension of "q.txt" is ".txt", so "q.txt" gives "q-results.csv". */
  lemma ResultsNameWithExtension()
    ensures ResultsName(Ascii("q.txt")) == Ascii("q") + RESULTS_SUFFIX
  {
    var n := Ascii("q.txt");
    ResultsNameOfExt(n, n[1..]);
    assert n[..1] == Ascii("q");
  }

  /** A name without a '.' keeps all of itself: "q" gives "q-results.csv". */
  lemma ResultsNameWithoutExtension()
    ensures ResultsName(Ascii("q")) == Ascii("q") + RESULTS_SUFFIX
  {
    var n := Ascii("q");
    ResultsNameOfExt(n, []);
    assert n[..|n|] == n;
  }

  /** A '.' before the last '/' does not start an extension: "a.b/q" gives
      "a.b/q-results.csv". */
  lemma ResultsNameDotInDirectory()
    ensures ResultsName(Ascii("a.b/q")) == Ascii("a.b/q") + RESULTS_SUFFIX
  {
    var n := Ascii("a.b/q");
    assert n[3] == SLASH && n[4] != DOT;
    ResultsNameOfExt(n, []);
    assert n[..|n|] == n;
  }
}
