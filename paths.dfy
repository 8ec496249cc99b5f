/** The name of the archive the edit session writes (7z-edit.py, line 46):
    the `-o` value when one is given, otherwise the input's root, then
    "_edited", then the input's extension as Python's `os.path.splitext`
    splits it. Separators are those of Windows paths, '\' and '/', because the
    script locates the archiver with the Windows `where` command. */
module Paths {

  import opened Options

  const EditedSuffix: string := "_edited"

  predicate IsSep(c: char) {
    c == '/' || c == '\\'
  }

  /** Python's `str.rfind` for one character: the last index holding `c`, or -1. */
  function RFind(p: string, c: char): (r: int)
    ensures -1 <= r < |p|
    ensures r >= 0 ==> p[r] == c
    ensures forall k :: r < k < |p| ==> p[k] != c
  {
    if p == [] then -1
    else if p[|p| - 1] == c then |p| - 1
    else RFind(p[..|p| - 1], c)
  }

  /** The last separator of either kind, or -1. */
  function LastSep(p: string): (r: int)
    ensures -1 <= r < |p|
    ensures r >= 0 ==> IsSep(p[r])
    ensures forall k :: r < k < |p| ==> !IsSep(p[k])
  {
    var back := RFind(p, '\\');
    var forward := RFind(p, '/');
    if back < forward then forward else back
  }

  /** Whether some character of `p` strictly between `lo` and `hi` is not a dot. */
  predicate HasNonDot(p: string, lo: int, hi: int)
    requires -1 <= lo && hi <= |p|
  {
    exists k :: lo < k < hi && p[k] != '.'
  }

  /** `os.path.splitext`: the extension runs from the last dot to the end,
      provided that dot lies after the last separator and is not one of the
      leading dots of the final component; otherwise the extension is empty. */
  function SplitExt(p: string): (r: (string, string))
    ensures r.0 + r.1 == p
    ensures r.1 != [] ==> r.1[0] == '.' && forall k :: 0 < k < |r.1| ==> r.1[k] != '.' && !IsSep(r.1[k])
    ensures r.1 != [] ==> LastSep(p) < |r.0| && HasNonDot(p, LastSep(p), |r.0|)
    ensures r.1 == [] ==> forall j, k :: LastSep(p) < j < k < |p| && p[k] == '.' ==> p[j] == '.'
  {
    var sepIndex := LastSep(p);
    var dotIndex := RFind(p, '.');
    if dotIndex > sepIndex && HasNonDot(p, sepIndex, dotIndex) then
      (p[..dotIndex], p[dotIndex..])
    else
      (p, "")
  }

  /** The output name used when no `-o` is given. */
  function DefaultOutputPath(input: string): (r: string)
    ensures |r| == |input| + |EditedSuffix|
    ensures r != input
  {
    var (root, ext) := SplitExt(input);
    root + EditedSuffix + ext
  }

  /** The output name of the session: `args.output if args.output else ...`,
      so an absent or empty `-o` both fall back to the derived name. */
  function ResolveOutputPath(output: Option<string>, input: string): (r: string)
    ensures output.Some? && output.value != "" ==> r == output.value
    ensures output.None? || output.value == "" ==> r == DefaultOutputPath(input) && r != input
  {
    if output.Some? && output.value != "" then output.value else DefaultOutputPath(input)
  }

  /** RFind is determined by its postcondition. */
  lemma RFindUnique(p: string, c: char, r: int)
    requires -1 <= r < |p|
    requires r >= 0 ==> p[r] == c
    requires forall k :: r < k < |p| ==> p[k] != c
    ensures RFind(p, c) == r
  {
  }

  /** LastSep is determined by its postcondition. */
  lemma LastSepUnique(p: string, r: int)
    requires -1 <= r < |p|
    requires r >= 0 ==> IsSep(p[r])
    requires forall k :: r < k < |p| ==> !IsSep(p[k])
    ensures LastSep(p) == r
  {
  }

  /** The derived name keeps the input's extension: splitting it again gives
      the input's root with "_edited" appended, and the same extension. */
  lemma DefaultKeepsExtension(p: string)
    ensures SplitExt(DefaultOutputPath(p)) == (SplitExt(p).0 + EditedSuffix, SplitExt(p).1)
  {
    var (root, ext) := SplitExt(p);
    if ext != [] {
      KeepsNonEmptyExtension(p, root, ext);
    } else {
      KeepsEmptyExtension(p);
    }
  }

  lemma KeepsNonEmptyExtension(p: string, root: string, ext: string)
    requires SplitExt(p) == (root, ext) && ext != []
    ensures SplitExt(root + EditedSuffix + ext) == (root + EditedSuffix, ext)
  {
    var q := root + EditedSuffix + ext;
    var n := |root| + |EditedSuffix|;
    var s := LastSep(p);
    assert s < |root| && HasNonDot(p, s, |root|);
    assert ext[0] == '.' && forall k :: 0 < k < |ext| ==> ext[k] != '.' && !IsSep(ext[k]);
    ExtensionSearch(root, ext, s);
    assert RFind(q, '.') == n && LastSep(q) == s && HasNonDot(q, s, n);
    assert q[..n] == root + EditedSuffix;
    assert q[n..] == ext;
  }

  /** Where the searches land in `root + "_edited" + ext` when `ext` is an extension. */
  lemma ExtensionSearch(root: string, ext: string, s: int)
    requires -1 <= s < |root| && HasNonDot(root, s, |root|)
    requires s >= 0 ==> IsSep(root[s])
    requires forall k :: s < k < |root| ==> !IsSep(root[k])
    requires ext != [] && ext[0] == '.'
    requires forall k :: 0 < k < |ext| ==> ext[k] != '.' && !IsSep(ext[k])
    ensures var q := root + EditedSuffix + ext;
      RFind(q, '.') == |root| + |EditedSuffix| && LastSep(q) == s && HasNonDot(q, s, |root| + |EditedSuffix|)
  {
    var q := root + EditedSuffix + ext;
    var n := |root| + |EditedSuffix|;
    assert forall k :: 0 <= k < |root| ==> q[k] == root[k];
    assert forall k :: n <= k < |q| ==> q[k] == ext[k - n];
    assert forall k :: |root| <= k < n ==> q[k] == EditedSuffix[k - |root|];
    RFindUnique(q, '.', n);
    LastSepUnique(q, s);
    var k :| s < k < |root| && root[k] != '.';
    assert q[k] != '.';
  }

  lemma KeepsEmptyExtension(p: string)
    requires SplitExt(p).1 == []
    ensures SplitExt(p + EditedSuffix) == (p + EditedSuffix, [])
  {
    var q := p + EditedSuffix;
    var s := LastSep(p);
    var d := RFind(p, '.');
    assert forall k :: 0 <= k < |p| ==> q[k] == p[k];
    assert forall k :: |p| <= k < |q| ==> q[k] == EditedSuffix[k - |p|];
    RFindUnique(q, '.', d);
    LastSepUnique(q, s);
    if d > s {
      assert HasNonDot(q, s, d) == HasNonDot(p, s, d);
    }
  }
}
