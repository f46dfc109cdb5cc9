/**
 * The output file name of `process_file` (text/clean/cleanTextAI.py): the
 * input path with its extension replaced by `_clean.txt`, where the extension
 * is the one POSIX `os.path.splitext` finds.
 */
module OutputPath {

  /** `s.rfind(c)`: the last index holding `c`, or -1. */
  function RFind(s: string, c: char): (i: int)
    ensures -1 <= i < |s|
    ensures i >= 0 ==> s[i] == c
    ensures forall j :: i < j < |s| ==> s[j] != c
  {
    if |s| == 0 then -1
    else if s[|s| - 1] == c then |s| - 1
    else RFind(s[..|s| - 1], c)
  }

  /**
   * Whether `p[from..to]` holds a character other than a dot: the loop of
   * `splitext` that skips the leading dots of a file name.
   */
  predicate HasNonDot(p: string, from: int, to: int)
    requires 0 <= from && to <= |p|
  {
    exists i :: from <= i < to && p[i] != '.'
  }

  /** Whether `base` ends in a file name that is not made of dots alone. */
  predicate NamedFile(base: string) {
    exists i :: 0 <= i < |base| && base[i] != '.' && base[i] != '/' && forall j :: i < j < |base| ==> base[j] != '/'
  }

  /**
   * `os.path.splitext` on POSIX: the extension runs from the last dot of the
   * last path component, provided that component has something other than
   * dots before it; otherwise it is empty.
   */
  function SplitExt(p: string): (r: (string, string))
    ensures r.0 + r.1 == p
    ensures r.1 != "" ==> r.1[0] == '.' && forall j :: 0 < j < |r.1| ==> r.1[j] != '.' && r.1[j] != '/'
    ensures r.1 != "" ==> '/' !in r.1 && NamedFile(r.0)
  {
    var sep := RFind(p, '/');
    var dot := RFind(p, '.');
    if dot > sep && HasNonDot(p, sep + 1, dot) then
      var base := p[..dot];
      var i :| sep + 1 <= i < dot && p[i] != '.';
      assert base[i] != '.' && base[i] != '/' && forall j :: i < j < |base| ==> base[j] != '/';
      (base, p[dot..])
    else
      (p, "")
  }

  /** The extension is empty exactly when no final dot of the path can start one. */
  lemma SplitExtEmpty(p: string)
    ensures SplitExt(p).1 == "" <==>
      forall d :: 0 <= d < |p| && p[d] == '.' && (forall j :: d < j < |p| ==> p[j] != '.' && p[j] != '/') ==> !NamedFile(p[..d])
  {
    var sep := RFind(p, '/');
    var dot := RFind(p, '.');
    if SplitExt(p).1 == "" {
      forall d | 0 <= d < |p| && p[d] == '.' && (forall j :: d < j < |p| ==> p[j] != '.' && p[j] != '/')
        ensures !NamedFile(p[..d])
      {
        assert d == dot;
        assert dot > sep;
      }
    } else {
      assert p[dot] == '.';
      assert p[..dot] == SplitExt(p).0;
    }
  }

  const CleanSuffix: string := "_clean.txt"

  /** `splitext(path)[0] + "_clean.txt"`. */
  function CleanOutputPath(p: string): (out: string)
    ensures |out| >= |CleanSuffix| && out[|out| - |CleanSuffix|..] == CleanSuffix
  {
    SplitExt(p).0 + CleanSuffix
  }

  /** The output path string differs from the input path string. */
  lemma CleanOutputDiffers(p: string)
    ensures CleanOutputPath(p) != p
  {
  }

  /** A `.txt` file with a proper name has just its extension replaced. */
  lemma CleanOutputOfTxt(name: string)
    requires NamedFile(name)
    ensures CleanOutputPath(name + ".txt") == name + CleanSuffix
  {
    var p := name + ".txt";
    var dot := RFind(p, '.');
    var sep := RFind(p, '/');
    assert p[|name|] == '.';
    assert dot == |name|;
    var i :| 0 <= i < |name| && name[i] != '.' && name[i] != '/' && forall j :: i < j < |name| ==> name[j] != '/';
    assert p[i] == name[i];
    assert sep < i;
    assert HasNonDot(p, sep + 1, dot);
    assert p[..dot] == name;
  }

  /** A file name of dots alone has no extension, so the suffix is appended. */
  lemma CleanOutputOfHiddenFile()
    ensures CleanOutputPath(".txt") == ".txt" + CleanSuffix
  {
    assert !HasNonDot(".txt", 0, 0);
  }
}
