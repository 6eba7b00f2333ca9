/**
 * The parts of Python's `posixpath` the handlers use to build and take apart
 * file names: `join` (two components), `basename`, `splitext`, together with
 * `str.lstrip` of a single character. `LastIndexOf` is the last index of a
 * character: the split point of `str.rsplit(sep, 1)` and the search `posixpath`
 * makes inside `basename` and `splitext`. `/` is the only separator, as on a
 * POSIX host.
 */
module PosixPath {

  const Sep := '/'
  const ExtSep := '.'

  /** The last index holding `c`, or -1 when there is none (Python's `s.rfind(c)`). */
  function LastIndexOf(s: string, c: char): (r: int)
    ensures -1 <= r < |s|
    ensures r >= 0 ==> s[r] == c
    ensures forall j :: r < j < |s| ==> s[j] != c
  {
    if s == [] then -1
    else if s[|s| - 1] == c then |s| - 1
    else LastIndexOf(s[..|s| - 1], c)
  }

  /** An index holding `c` with no `c` after it, or -1 when `c` does not occur, is the
      last index of `c`. */
  lemma LastIndexOfIs(s: string, c: char, k: int)
    requires -1 <= k < |s| && (k >= 0 ==> s[k] == c)
    requires forall j :: k < j < |s| ==> s[j] != c
    ensures LastIndexOf(s, c) == k
  {
  }

  /** When no `c` occurs from index `k` on, the last `c` is before `k`. */
  lemma LastIndexOfBefore(s: string, c: char, k: int)
    requires 0 <= k <= |s|
    requires forall j :: k <= j < |s| ==> s[j] != c
    ensures LastIndexOf(s, c) < k
  {
  }

  /** `posixpath.join(a, b)`: `b` when it is absolute, otherwise `b` appended to `a` with
      exactly one separator between them unless `a` is empty or already ends with one. */
  function Join(a: string, b: string): (r: string)
    ensures b != [] && b[0] == Sep ==> r == b
    ensures (b == [] || b[0] != Sep) ==> a <= r && |b| <= |r| && r[|r| - |b|..] == b
    ensures (b == [] || b[0] != Sep) && a != [] && a[|a| - 1] != Sep ==> r == a + [Sep] + b
    ensures (b == [] || b[0] != Sep) && (a == [] || a[|a| - 1] == Sep) ==> r == a + b
  {
    if b != [] && b[0] == Sep then b
    else if a == [] || a[|a| - 1] == Sep then a + b
    else a + [Sep] + b
  }

  /** `posixpath.basename(p)`: what follows the last separator. */
  function Basename(p: string): (r: string)
    ensures Sep !in r
    ensures |r| <= |p| && p[|p| - |r|..] == r
    ensures |r| < |p| ==> p[|p| - |r| - 1] == Sep
  {
    var i := LastIndexOf(p, Sep) + 1;
    assert forall j :: 0 <= j < |p[i..]| ==> p[i..][j] == p[i + j];
    p[i..]
  }

  /** `s` holds neither a dot nor a separator. */
  predicate PlainPart(s: string) {
    forall i :: 0 <= i < |s| ==> s[i] != ExtSep && s[i] != Sep
  }

  ghost predicate AllChar(s: string, c: char) {
    forall i :: 0 <= i < |s| ==> s[i] == c
  }

  /** `p` has an extension in the sense of `posixpath.splitext`: some dot of its last
      path component has a character other than a dot before it in that component. */
  ghost predicate HasExtension(p: string) {
    exists i, j :: ExtensionAt(p, i, j)
  }

  /** Index `i` holds a character other than a dot, a later index `j` holds a dot, and
      no separator stands at `i` or after it. */
  ghost predicate ExtensionAt(p: string, i: int, j: int) {
    && 0 <= i < j < |p| && p[i] != ExtSep && p[j] == ExtSep
    && forall m :: i <= m < |p| ==> p[m] != Sep
  }

  /** Only dots stand at the indices from `lo` up to `hi`. */
  predicate DotsOnly(p: string, lo: int, hi: int)
    requires 0 <= lo <= hi <= |p|
  {
    forall n :: lo <= n < hi ==> p[n] == ExtSep
  }

  /** The test `splitext` makes, that the last dot comes after the last separator and
      not only dots stand between them, finds an extension. */
  lemma ExtensionTestSound(p: string, sepIndex: int, dotIndex: int)
    requires sepIndex == LastIndexOf(p, Sep) && dotIndex == LastIndexOf(p, ExtSep)
    requires dotIndex > sepIndex && !DotsOnly(p, sepIndex + 1, dotIndex)
    ensures HasExtension(p)
  {
    var i :| sepIndex + 1 <= i < dotIndex && p[i] != ExtSep;
    assert ExtensionAt(p, i, dotIndex);
  }

  /** Conversely, every extension passes that test. */
  lemma ExtensionTestComplete(p: string, sepIndex: int, dotIndex: int)
    requires sepIndex == LastIndexOf(p, Sep) && dotIndex == LastIndexOf(p, ExtSep)
    ensures HasExtension(p) ==> dotIndex > sepIndex && !DotsOnly(p, sepIndex + 1, dotIndex)
  {
    if HasExtension(p) {
      var i, j :| ExtensionAt(p, i, j);
      assert sepIndex < i;
      assert j <= dotIndex;
    }
  }

  /** Where `posixpath.splitext` starts the extension of `p`: at the last `.` of the last
      path component, unless only dots precede it in that component (so `.mp4` has no
      extension); `|p|` when there is no extension. What follows it has no dot and no
      separator. */
  function ExtensionStart(p: string): (k: int)
    ensures 0 <= k <= |p|
    ensures k < |p| ==> p[k] == ExtSep && PlainPart(p[k + 1..])
  {
    var sepIndex := LastIndexOf(p, Sep);
    var dotIndex := LastIndexOf(p, ExtSep);
    if dotIndex > sepIndex && !DotsOnly(p, sepIndex + 1, dotIndex) then
      dotIndex
    else
      |p|
  }

  /** `splitext` finds an extension exactly when `p` has one, and it then starts at the
      last dot of `p`. */
  lemma ExtensionStartIff(p: string)
    ensures ExtensionStart(p) < |p| <==> HasExtension(p)
    ensures HasExtension(p) ==> ExtensionStart(p) == LastIndexOf(p, ExtSep)
  {
    var sepIndex := LastIndexOf(p, Sep);
    var dotIndex := LastIndexOf(p, ExtSep);
    if dotIndex > sepIndex && !DotsOnly(p, sepIndex + 1, dotIndex) {
      assert ExtensionStart(p) == dotIndex;
      ExtensionTestSound(p, sepIndex, dotIndex);
    } else {
      assert ExtensionStart(p) == |p|;
      ExtensionTestComplete(p, sepIndex, dotIndex);
    }
  }

  /** `posixpath.splitext(p)`: the root and the extension, which put back together give `p`;
      the extension is empty or a dot followed by no other dot or separator. */
  function SplitExt(p: string): (r: (string, string))
    ensures r.0 + r.1 == p
    ensures r.1 == [] || (r.1[0] == ExtSep && PlainPart(r.1[1..]))
  {
    var k := ExtensionStart(p);
    assert k < |p| ==> p[k..][1..] == p[k + 1..];
    (p[..k], p[k..])
  }

  /** The extension `splitext` returns is non-empty exactly when `p` has one. */
  lemma SplitExtIff(p: string)
    ensures SplitExt(p).1 != [] <==> HasExtension(p)
  {
    ExtensionStartIff(p);
  }

  /** `s.lstrip(c)` for a single character `c`. */
  function LStripChar(s: string, c: char): (r: string)
    ensures |r| <= |s| && r == s[|s| - |r|..]
    ensures AllChar(s[..|s| - |r|], c)
    ensures r != [] ==> r[0] != c
  {
    if s != [] && s[0] == c then
      var r := LStripChar(s[1..], c);
      assert s[..|s| - |r|] == [c] + s[1..][..|s| - 1 - |r|];
      r
    else
      s
  }

  /** `splitext(p)[1].lstrip('.')`: the extension of `p` without its dot; empty when
      `p` has none. */
  function ExtensionOf(p: string): (r: string)
    ensures PlainPart(r)
    ensures r != [] ==> |r| < |p| && p[|p| - |r| - 1..] == [ExtSep] + r
  {
    StrippedExtension(p);
    LStripChar(SplitExt(p).1, ExtSep)
  }

  /** The extension without its dot is everything after the last dot of `p` when `p`
      has an extension, and empty otherwise. */
  lemma ExtensionOfIff(p: string)
    ensures HasExtension(p) ==> ExtensionOf(p) == p[LastIndexOf(p, ExtSep) + 1..]
    ensures !HasExtension(p) ==> ExtensionOf(p) == []
  {
    ExtensionStartIff(p);
    StrippedExtension(p);
  }

  /** Stripping the dots off the front of a `splitext` extension removes just its one
      dot: what is left is everything after the extension's start. */
  lemma StrippedExtension(p: string)
    ensures var k := ExtensionStart(p);
      LStripChar(SplitExt(p).1, ExtSep) == if k < |p| then p[k + 1..] else []
    ensures var k := ExtensionStart(p);
      k < |p| ==> p[k..] == [ExtSep] + p[k + 1..]
  {
    var k := ExtensionStart(p);
    var ext := SplitExt(p).1;
    if k < |p| {
      assert ext == p[k..];
      assert ext[1..] == p[k + 1..];
      StripLeadingDot(ext);
    }
  }

  /** An extension is a dot and a plain part; `lstrip('.')` removes just the dot. */
  lemma StripLeadingDot(ext: string)
    requires ext != [] && ext[0] == ExtSep && PlainPart(ext[1..])
    ensures LStripChar(ext, ExtSep) == ext[1..]
  {
    assert ext[1..] != [] ==> ext[1..][0] == ext[1];
    LStripUnchanged(ext[1..], ExtSep);
  }

  /** `lstrip(c)` leaves a string that does not start with `c` as it is. */
  lemma LStripUnchanged(s: string, c: char)
    requires s == [] || s[0] != c
    ensures LStripChar(s, c) == s
  {
  }

  /** When the dot at index `d` is the last dot of `p`, no separator follows it, and the
      character before it is neither a dot nor a separator (so the last component does
      not start there), the extension starts at that dot. */
  lemma ExtensionStartsAtLastDot(p: string, d: int)
    requires 0 < d < |p| && p[d] == ExtSep
    requires p[d - 1] != ExtSep && p[d - 1] != Sep
    requires forall j :: d < j < |p| ==> p[j] != ExtSep && p[j] != Sep
    ensures ExtensionStart(p) == d
  {
    LastIndexOfIs(p, ExtSep, d);
    LastIndexOfBefore(p, Sep, d - 1);
  }

  /** Under the same conditions the extension is everything after that dot. */
  lemma ExtensionAfterLastDot(p: string, d: int)
    requires 0 < d < |p| && p[d] == ExtSep
    requires p[d - 1] != ExtSep && p[d - 1] != Sep
    requires forall j :: d < j < |p| ==> p[j] != ExtSep && p[j] != Sep
    ensures ExtensionOf(p) == p[d + 1..]
  {
    ExtensionStartsAtLastDot(p, d);
    StrippedExtension(p);
  }

  /** `splitext` finds no extension in a name whose only dot is its first character. */
  lemma NoExtensionStart(p: string)
    requires p != [] && p[0] == ExtSep
    requires forall j :: 0 < j < |p| ==> p[j] != ExtSep && p[j] != Sep
    ensures ExtensionStart(p) == |p|
  {
    LastIndexOfIs(p, Sep, -1);
    LastIndexOfIs(p, ExtSep, 0);
  }

  /** A name whose only dot is its first character, such as `.mp4`, has no extension. */
  lemma NoExtensionAfterLeadingDot(p: string)
    requires p != [] && p[0] == ExtSep
    requires forall j :: 0 < j < |p| ==> p[j] != ExtSep && p[j] != Sep
    ensures ExtensionOf(p) == []
  {
    NoExtensionStart(p);
    StrippedExtension(p);
  }
}
